/**
 * The pieces of JavaScript string semantics the report relies on:
 * `String.prototype.trim`, the truthiness of a string or of an optional
 * string, and the `a || fallback` idiom.
 */
module JsText {
  import opened Wrappers

  /**
   * The characters ECMAScript's `trim` removes: the WhiteSpace code points
   * (TAB, VT, FF, SPACE, NBSP, ZWNBSP and the Unicode space separators)
   * and the LineTerminator code points (LF, CR, LS, PS).
   */
  predicate IsWhiteSpace(c: char) {
    || c == '\t' || c == '\n' || c == '\U{000B}' || c == '\U{000C}' || c == '\r'
    || c == ' ' || c == '\U{00A0}' || c == '\U{1680}'
    || ('\U{2000}' <= c <= '\U{200A}')
    || c == '\U{2028}' || c == '\U{2029}' || c == '\U{202F}' || c == '\U{205F}'
    || c == '\U{3000}' || c == '\U{FEFF}'
  }

  /** Every character of `s` is white space (the empty string included). */
  ghost predicate IsBlank(s: string) {
    forall i :: 0 <= i < |s| ==> IsWhiteSpace(s[i])
  }

  /** `s` without its leading white space. */
  function TrimStart(s: string): string
    decreases |s|
  {
    if s != [] && IsWhiteSpace(s[0]) then TrimStart(s[1..]) else s
  }

  /** `s` without its trailing white space. */
  function TrimEnd(s: string): string
    decreases |s|
  {
    if s != [] && IsWhiteSpace(s[|s| - 1]) then TrimEnd(s[..|s| - 1]) else s
  }

  /**
   * JavaScript `s.trim()`: never longer than `s`, and a non-empty result
   * neither starts nor ends with white space.
   */
  function Trim(s: string): (r: string)
    ensures |r| <= |s|
    ensures r != "" ==> !IsWhiteSpace(r[0]) && !IsWhiteSpace(r[|r| - 1])
  {
    TrimStartDropsBlankPrefix(s);
    TrimEndDropsBlankSuffix(TrimStart(s));
    TrimEnd(TrimStart(s))
  }

  /** `TrimStart` drops a blank prefix and keeps the rest, which starts with a non-space. */
  lemma {:induction false} TrimStartDropsBlankPrefix(s: string)
    ensures |TrimStart(s)| <= |s| && TrimStart(s) == s[|s| - |TrimStart(s)|..]
    ensures IsBlank(s[..|s| - |TrimStart(s)|])
    ensures TrimStart(s) != [] ==> !IsWhiteSpace(TrimStart(s)[0])
    decreases |s|
  {
    if s != [] && IsWhiteSpace(s[0]) {
      TrimStartDropsBlankPrefix(s[1..]);
      var k := |s| - |TrimStart(s)|;
      forall i | 0 <= i < k ensures IsWhiteSpace(s[..k][i]) {
        if i > 0 {
          assert s[..k][i] == s[1..][..k - 1][i - 1];
        }
      }
    }
  }

  /** `TrimEnd` drops a blank suffix and keeps the rest, which ends with a non-space. */
  lemma {:induction false} TrimEndDropsBlankSuffix(s: string)
    ensures |TrimEnd(s)| <= |s| && TrimEnd(s) == s[..|TrimEnd(s)|]
    ensures IsBlank(s[|TrimEnd(s)|..])
    ensures TrimEnd(s) != [] ==> !IsWhiteSpace(TrimEnd(s)[|TrimEnd(s)| - 1])
    decreases |s|
  {
    if s != [] && IsWhiteSpace(s[|s| - 1]) {
      var p := s[..|s| - 1];
      TrimEndDropsBlankSuffix(p);
      var k := |TrimEnd(s)|;
      forall i | 0 <= i < |s| - k ensures IsWhiteSpace(s[k..][i]) {
        if k + i < |s| - 1 {
          assert s[k..][i] == p[k..][i];
        }
      }
    }
  }

  /** `s.trim()` is falsy (the empty string) exactly when `s` is blank. */
  lemma TrimEmptyIffBlank(s: string)
    ensures Trim(s) == "" <==> IsBlank(s)
  {
    TrimStartDropsBlankPrefix(s);
    var t := TrimStart(s);
    TrimEndDropsBlankSuffix(t);
    var k := |s| - |t|;
    if Trim(s) == "" {
      assert t == [];
      assert s[..k] == s;
    }
  }

  /** JavaScript truthiness of an optional string: defined and not empty. */
  predicate Truthy(o: Option<string>) {
    o.Some? && o.value != ""
  }

  /**
   * JavaScript `s || fallback` for a string `s`: one of the two operands,
   * `s` itself whenever it is truthy, and never empty when the fallback
   * is not.
   */
  function Or(s: string, fallback: string): (r: string)
    ensures r == s || r == fallback
    ensures s != "" ==> r == s
    ensures fallback != "" ==> r != ""
  {
    if s != "" then s else fallback
  }

  /** JavaScript `o || fallback` for an optional string `o`. */
  function OrOption(o: Option<string>, fallback: string): (r: string)
    ensures Truthy(o) ==> r == o.value
    ensures !Truthy(o) ==> r == fallback
  {
    match o
    case Some(s) => Or(s, fallback)
    case None => fallback
  }
}
