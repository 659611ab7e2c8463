/**
 * The string and array operations of the .NET base library that the banner
 * upload relies on, with the semantics they have for the inputs it gives them.
 */
module Strings {

  predicate IsAsciiUpper(c: char) {
    'A' <= c <= 'Z'
  }

  /** `char.ToLower` restricted to ASCII: only 'A'..'Z' change. */
  function ToLowerChar(c: char): (d: char)
    ensures !IsAsciiUpper(d)
    ensures IsAsciiUpper(c) ==> d as int == c as int + 32
    ensures !IsAsciiUpper(c) ==> d == c
  {
    if IsAsciiUpper(c) then (c as int + 32) as char else c
  }

  /** `string.ToLower()` restricted to ASCII letters. */
  function ToLowerAscii(s: string): (t: string)
    ensures |t| == |s|
    ensures forall i :: 0 <= i < |t| ==> !IsAsciiUpper(t[i])
    ensures forall i :: 0 <= i < |s| && !IsAsciiUpper(s[i]) ==> t[i] == s[i]
    ensures forall i :: 0 <= i < |s| && IsAsciiUpper(s[i]) ==> t[i] as int == s[i] as int + 32
  {
    seq(|s|, i requires 0 <= i < |s| => ToLowerChar(s[i]))
  }

  /** Lower-casing twice is lower-casing once. */
  lemma ToLowerAsciiIdempotent(s: string)
    ensures ToLowerAscii(ToLowerAscii(s)) == ToLowerAscii(s)
  {
  }

  /** A string with no upper-case letter is its own lower-case form. */
  lemma ToLowerAsciiOfLower(s: string)
    requires forall i :: 0 <= i < |s| ==> !IsAsciiUpper(s[i])
    ensures ToLowerAscii(s) == s
  {
  }

  /** `s.StartsWith(prefix)`, compared ordinally. */
  function StartsWith(s: string, prefix: string): (b: bool)
    ensures b <==> |prefix| <= |s| && forall i :: 0 <= i < |prefix| ==> s[i] == prefix[i]
  {
    |prefix| <= |s| && s[..|prefix|] == prefix
  }

  /** `s.Replace("\\", "/")`: every backslash becomes a forward slash. */
  function ReplaceBackslashes(s: string): (t: string)
    ensures |t| == |s|
    ensures forall i :: 0 <= i < |t| ==> t[i] != '\\'
    ensures forall i :: 0 <= i < |s| && s[i] != '\\' ==> t[i] == s[i]
    ensures forall i :: 0 <= i < |s| && s[i] == '\\' ==> t[i] == '/'
  {
    seq(|s|, i requires 0 <= i < |s| => if s[i] == '\\' then '/' else s[i])
  }

  /**
   * `Array.IndexOf(a, x)`: the index of the first element equal to `x`, or -1
   * when there is none.
   */
  function IndexOf(a: seq<string>, x: string): (r: int)
    ensures -1 <= r < |a|
    ensures r == -1 <==> x !in a
    ensures 0 <= r ==> a[r] == x && x !in a[..r]
  {
    if |a| == 0 then -1
    else if a[0] == x then 0
    else
      var r := IndexOf(a[1..], x);
      assert a == [a[0]] + a[1..];
      if r == -1 then -1
      else
        assert a[..r + 1] == [a[0]] + a[1..][..r];
        r + 1
  }
}
