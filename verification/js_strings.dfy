/**
 * The String.prototype methods the template helpers rely on, with the
 * clamping rules of ECMA-262. Strings are sequences of Unicode scalar
 * values, where JavaScript counts UTF-16 code units and also admits lone
 * surrogates; the integer arguments are already integral.
 */
module JsStrings {

  /** `x` forced into `[lo, hi]`. */
  function Clamp(x: int, lo: int, hi: int): (r: int)
    requires lo <= hi
    ensures lo <= r <= hi
    ensures lo <= x <= hi ==> r == x
  {
    if x < lo then lo else if x > hi then hi else x
  }

  /**
   * `s.substr(start, length)` as in section B.2.2.1 of ECMA-262 (Annex B):
   * a negative start counts from the end, and the length is clamped to
   * `[0, size]`, so a negative length yields the empty string.
   */
  function Substr(s: string, start: int, length: int): (r: string)
    ensures |r| <= |s|
    ensures start == 0 ==> r == s[..Clamp(length, 0, |s|)]
    ensures start == 0 && length <= 0 ==> r == []
  {
    var from := if start < 0 then Clamp(|s| + start, 0, |s|) else Clamp(start, 0, |s|);
    var len := Clamp(length, 0, |s|);
    var to := Clamp(from + len, from, |s|);
    s[from..to]
  }

  /**
   * `s.lastIndexOf(c)` for a one-character search string: the index of the
   * last occurrence of `c`, or -1 when there is none.
   */
  function LastIndexOf(s: string, c: char): (k: int)
    ensures -1 <= k < |s|
    ensures k >= 0 ==> s[k] == c
    ensures forall j :: k < j < |s| ==> s[j] != c
  {
    if s == [] then -1
    else if s[|s| - 1] == c then |s| - 1
    else LastIndexOf(s[..|s| - 1], c)
  }

  /** `s.indexOf(c)` for a one-character search string. */
  function IndexOf(s: string, c: char): (k: int)
    ensures -1 <= k < |s|
    ensures k >= 0 ==> s[k] == c
    ensures forall j :: 0 <= j < |s| && (k == -1 || j < k) ==> s[j] != c
  {
    if s == [] then -1
    else if s[0] == c then 0
    else
      var k := IndexOf(s[1..], c);
      if k == -1 then -1 else k + 1
  }
}
