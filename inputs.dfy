/** `FormOptimizer.optimizeInputs`: for every input and textarea of a form, an
    email or tel field gets the matching `autocomplete` and `inputmode`
    attributes so that browsers offer the right autofill and keyboard. */
module Inputs {
  import opened Timing

  /** An `input` or `textarea` element: its `type` and its attributes. */
  class InputElement {
    const kind: string
    var attributes: map<string, string>

    constructor (kind: string, attributes: map<string, string>)
      ensures this.kind == kind && this.attributes == attributes
    {
      this.kind := kind;
      this.attributes := attributes;
    }
  }

  /** The `autocomplete` value the first if-chain sets, if any. */
  function AutocompleteFor(kind: string): Option<string> {
    if kind == "email" then Some("email") else if kind == "tel" then Some("tel") else None
  }

  /** The `inputmode` value the second if-chain sets, if any. */
  function InputModeFor(kind: string): Option<string> {
    if kind == "tel" then Some("tel") else if kind == "email" then Some("email") else None
  }

  /** `setAttribute(name, v)` when there is a value to set. */
  function SetIf(attrs: map<string, string>, name: string, v: Option<string>): map<string, string> {
    match v
    case None => attrs
    case Some(x) => attrs[name := x]
  }

  /** The attributes of an element of type `kind` after the loop body has run on it. */
  function Optimized(kind: string, attrs: map<string, string>): map<string, string> {
    SetIf(SetIf(attrs, "autocomplete", AutocompleteFor(kind)), "inputmode", InputModeFor(kind))
  }

  /** What the mapping does, type by type: email fields get
      autocomplete="email" and inputmode="email", tel fields get "tel" for
      both, every other type is left as it was; no other attribute is touched. */
  lemma OptimizedByKind(kind: string, attrs: map<string, string>)
    ensures kind == "email" ==>
      "autocomplete" in Optimized(kind, attrs) && Optimized(kind, attrs)["autocomplete"] == "email"
      && "inputmode" in Optimized(kind, attrs) && Optimized(kind, attrs)["inputmode"] == "email"
    ensures kind == "tel" ==>
      "autocomplete" in Optimized(kind, attrs) && Optimized(kind, attrs)["autocomplete"] == "tel"
      && "inputmode" in Optimized(kind, attrs) && Optimized(kind, attrs)["inputmode"] == "tel"
    ensures kind != "email" && kind != "tel" ==> Optimized(kind, attrs) == attrs
    ensures Optimized(kind, attrs).Keys == attrs.Keys
      + (if kind == "email" || kind == "tel" then {"autocomplete", "inputmode"} else {})
    ensures forall name :: name in attrs && name != "autocomplete" && name != "inputmode" ==>
      Optimized(kind, attrs)[name] == attrs[name]
  {
  }

  /** Running the body twice on one element is the same as running it once, so
      an element met twice ends up as if met once. */
  lemma OptimizedIdempotent(kind: string, attrs: map<string, string>)
    ensures Optimized(kind, Optimized(kind, attrs)) == Optimized(kind, attrs)
  {
  }

  /** The `forEach` callback for one element. */
  method OptimizeInput(input: InputElement)
    modifies input
    ensures input.attributes == Optimized(input.kind, old(input.attributes))
  {
    if input.kind == "email" {
      input.attributes := input.attributes["autocomplete" := "email"];
    } else if input.kind == "tel" {
      input.attributes := input.attributes["autocomplete" := "tel"];
    }

    if input.kind == "tel" {
      input.attributes := input.attributes["inputmode" := "tel"];
    } else if input.kind == "email" {
      input.attributes := input.attributes["inputmode" := "email"];
    }
  }

  /** `optimizeInputs(form)` over the form's inputs and textareas, in document
      order: each element ends up with its attributes mapped by `Optimized`. */
  method OptimizeInputs(inputs: seq<InputElement>)
    modifies set x | x in inputs
    ensures forall x :: x in inputs ==> x.attributes == Optimized(x.kind, old(x.attributes))
  {
    for n := 0 to |inputs|
      invariant forall x :: x in inputs[..n] ==> x.attributes == Optimized(x.kind, old(x.attributes))
      invariant forall x :: x in inputs && x !in inputs[..n] ==> x.attributes == old(x.attributes)
    {
      var input := inputs[n];
      if input in inputs[..n] {
        OptimizedIdempotent(input.kind, old(input.attributes));
      }
      OptimizeInput(input);
      assert inputs[..n + 1] == inputs[..n] + [input];
    }
    assert inputs[..|inputs|] == inputs;
  }
}
