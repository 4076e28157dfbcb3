/**
 * The request checks `register_multiple` makes before any image is decoded:
 * the name, stripped of surrounding white space, must be non-empty, and there
 * must be exactly three images.
 */
module Requests {
  import opened Wrappers

  /** The characters Python's `str.isspace` accepts, which `str.strip()` removes. */
  predicate IsSpace(c: char) {
    || ('\U{0009}' <= c <= '\U{000D}')   // tab, line feed, vertical tab, form feed, carriage return
    || ('\U{001C}' <= c <= '\U{001F}')   // information separators
    || c == ' ' || c == '\U{0085}' || c == '\U{00A0}' || c == '\U{1680}'
    || ('\U{2000}' <= c <= '\U{200A}')   // en quad to hair space
    || c == '\U{2028}' || c == '\U{2029}' || c == '\U{202F}' || c == '\U{205F}' || c == '\U{3000}'
  }

  /** Number of white-space characters at the start of `s`. */
  function LeadingSpace(s: string): (i: nat)
    ensures i <= |s|
    ensures forall k :: 0 <= k < i ==> IsSpace(s[k])
    ensures i < |s| ==> !IsSpace(s[i])
    decreases |s|
  {
    if |s| > 0 && IsSpace(s[0]) then
      var i := LeadingSpace(s[1..]);
      assert forall k :: 1 <= k < |s| ==> s[1..][k - 1] == s[k];
      i + 1
    else 0
  }

  /** Position just after the last character of `s` that is not white space (0 if there is none). */
  function ContentEnd(s: string): (j: nat)
    ensures j <= |s|
    ensures forall k :: j <= k < |s| ==> IsSpace(s[k])
    ensures j > 0 ==> !IsSpace(s[j - 1])
    decreases |s|
  {
    if |s| > 0 && IsSpace(s[|s| - 1]) then ContentEnd(s[..|s| - 1]) else |s|
  }

  /**
   * `str.strip()`: the part of `s` between its leading and trailing white
   * space; it neither starts nor ends with white space, and it is empty exactly
   * when `s` is all white space.
   */
  function Strip(s: string): (r: string)
    ensures exists i, j :: && 0 <= i <= j <= |s| && r == s[i..j]
                           && (forall k :: 0 <= k < i ==> IsSpace(s[k]))
                           && (forall k :: j <= k < |s| ==> IsSpace(s[k]))
    ensures r != [] ==> !IsSpace(r[0]) && !IsSpace(r[|r| - 1])
    ensures r == [] <==> forall k :: 0 <= k < |s| ==> IsSpace(s[k])
  {
    var i := LeadingSpace(s);
    if i == |s| then
      assert s[i..i] == [];
      []
    else
      var j := ContentEnd(s);
      assert i < j;
      s[i..j]
  }

  /** Stripping twice is stripping once. */
  lemma StripIdempotent(s: string)
    ensures Strip(Strip(s)) == Strip(s)
  {
    var r := Strip(s);
    if r != [] {
      assert LeadingSpace(r) == 0;
      assert ContentEnd(r) == |r|;
      assert r[0..|r|] == r;
    }
  }

  /** The two refusals, with the messages `register_multiple` sends. */
  datatype RequestError =
    | NameRequired     // "Name is required"
    | BadImageCount    // "Exactly 3 images are required"

  /** Number of images a registration request must carry. */
  const RequestImages: nat := 3

  /**
   * The checks of `register_multiple` on the request's `name` field (absent:
   * `None`, read as `''`) and the number of images it carries: the stripped
   * name when both checks pass, the name's refusal taking precedence.
   */
  function ValidateRequest(name: Option<string>, imageCount: nat): (r: Result<string, RequestError>)
    ensures var raw := if name.Some? then name.value else "";
      && ((forall k :: 0 <= k < |raw| ==> IsSpace(raw[k])) ==> r == Failure(NameRequired))
      && ((exists k :: 0 <= k < |raw| && !IsSpace(raw[k])) && imageCount != RequestImages ==> r == Failure(BadImageCount))
      && (r.Success? <==> (exists k :: 0 <= k < |raw| && !IsSpace(raw[k])) && imageCount == RequestImages)
      && (r.Success? ==> r.value == Strip(raw))
    ensures r.Success? ==> r.value != "" && !IsSpace(r.value[0]) && !IsSpace(r.value[|r.value| - 1])
  {
    var stripped := Strip(if name.Some? then name.value else "");
    if stripped == "" then Failure(NameRequired)
    else if imageCount != RequestImages then Failure(BadImageCount)
    else Success(stripped)
  }
}
