/**
 * The name checks of lib/utils/validation.ts: the unsafe-character test and the two
 * validators used before a product name or a variant handle becomes part of a path.
 * Only the boolean results are modelled; the toast messages are not.
 */
module Validation {
  import opened Text

  /** One of the characters of the class `[/\\?%*:|"<>.,;=]`. */
  predicate IsUnsafe(c: char) {
    c == '/' || c == '\\' || c == '?' || c == '%' || c == '*' || c == ':' || c == '|'
    || c == '"' || c == '<' || c == '>' || c == '.' || c == ',' || c == ';' || c == '='
  }

  /** No unsafe character occurs in `s`. */
  predicate SafeText(s: string) {
    forall i :: 0 <= i < |s| ==> !IsUnsafe(s[i])
  }

  /** `containsUnsafePath`: the unsafe-character pattern matches somewhere in `input`. */
  function ContainsUnsafePath(input: string): (r: bool)
    ensures r <==> exists i :: 0 <= i < |input| && IsUnsafe(input[i])
    ensures r <==> !SafeText(input)
  {
    if input == [] then false
    else if IsUnsafe(input[0]) then true
    else
      var rest := ContainsUnsafePath(input[1..]);
      assert forall i :: 1 <= i < |input| ==> input[i] == input[1..][i - 1];
      rest
  }

  /** The rule both validators apply: present, not blank after trimming, no unsafe character. */
  predicate AcceptableName(name: string) {
    if name == [] || |Trim(name)| == 0 then false
    else if ContainsUnsafePath(name) then false
    else true
  }

  /** `validateProductName`, result only. */
  function ValidateProductName(name: string): (ok: bool)
    ensures ok <==> !AllWhitespace(name) && SafeText(name)
    ensures AllWhitespace(name) ==> !ok
    ensures ContainsUnsafePath(name) ==> !ok
  {
    AcceptableName(name)
  }

  /** `validateVariantHandle`, result only: the same rule as for product names. */
  function ValidateVariantHandle(handle: string): (ok: bool)
    ensures ok <==> !AllWhitespace(handle) && SafeText(handle)
    ensures AllWhitespace(handle) ==> !ok
    ensures ContainsUnsafePath(handle) ==> !ok
  {
    AcceptableName(handle)
  }

  /** Embedded spaces are not rejected: the handle "X L" is accepted. */
  lemma EmbeddedSpaceAccepted()
    ensures ValidateVariantHandle("X L")
    ensures ValidateProductName("X L")
  {
    assert !IsWhitespace("X L"[0]);
    assert SafeText("X L");
  }
}
