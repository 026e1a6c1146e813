/**
  `Blocker.block`: wraps the caller's block prompt so that navigation the
  library performs itself, under suppression, is never blocked.
 */
module Blockers {
  import opened Values
  import opened Locations
  import opened Suppressors

  /** What `block` may be given: nothing, a boolean, a message, or a function producing a message. */
  datatype Prompt =
    | NoPrompt
    | Flag(b: bool)
    | Message(text: string)
    | Callback(f: (Location, Action) -> string)

  /** The prompt as the plain value it is when it is not a function. */
  function PromptValue(p: Prompt): Value
    requires !p.Callback?
  {
    match p
    case NoPrompt => Undefined
    case Flag(b) => Bool(b)
    case Message(text) => Str(text)
  }

  /**
    The registered wrapper, called by the provider before a navigation.
    Suppression is read from the suppressor as it is at the time of the
    call: while it is active the answer is `true` (allow); otherwise a
    function prompt is called with the location and action, and any other
    prompt is answered as it is.
   */
  function Check(p: Prompt, s: Suppressor, l: Location, a: Action): (r: Value)
    ensures IsActive(s) ==> r == Bool(true)
    ensures !IsActive(s) && p.Callback? ==> r == Str(p.f(l, a))
    ensures !IsActive(s) && !p.Callback? ==> r == PromptValue(p)
  {
    if IsActive(s) then Bool(true)
    else if p.Callback? then Str(p.f(l, a))
    else PromptValue(p)
  }

  /**
    `block(prompt)`: registers exactly one wrapper with the source (whose
    block registrations are `registered`) and returns its unregister handle,
    the position of the new registration.
   */
  function Block(registered: seq<Prompt>, p: Prompt): (r: (seq<Prompt>, nat))
    ensures r.0 == registered + [p]
    ensures r.1 == |registered| && r.0[r.1] == p
  {
    (registered + [p], |registered|)
  }

  /**
    The same wrapper answers differently as suppression comes and goes:
    the gate is consulted on every call, not when `block` was called. While
    a suppression is held any prompt allows the navigation, and once it is
    released the prompt answers exactly as it did before.
   */
  lemma SuppressionReadPerCall(p: Prompt, s: Suppressor, l: Location, a: Action)
    requires Suppressors.Valid(s)
    ensures var (held, t) := Suppress(s);
      && Check(p, held, l, a) == Bool(true)
      && Check(p, Release(held, t), l, a) == Check(p, s, l, a)
  {
  }
}
