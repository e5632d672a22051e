/** String helpers shared by the domain extractor, the provider table and the
    matcher: Python 2 byte-string lowercasing and the two `split` idioms the
    source uses. */
module Text {

  /** `str.lower()` on one character of a Python 2 byte string: only the
      ASCII capitals change. */
  function LowerChar(c: char): char
  {
    if 'A' <= c <= 'Z' then (c as int + 32) as char else c
  }

  /** `s.lower()`: each ASCII capital becomes its small letter, every other
      character stays, and lowering again changes nothing. */
  function Lower(s: string): (r: string)
    ensures |r| == |s| && IsLowered(r)
    ensures forall i :: 0 <= i < |s| && !('A' <= s[i] <= 'Z') ==> r[i] == s[i]
    ensures forall i :: 0 <= i < |s| && 'A' <= s[i] <= 'Z' ==> r[i] as int == s[i] as int + 32
    ensures forall i :: 0 <= i < |r| ==> LowerChar(r[i]) == r[i]
  {
    seq(|s|, i requires 0 <= i < |s| => LowerChar(s[i]))
  }

  /** No ASCII capital occurs in `s`. */
  predicate IsLowered(s: string)
  {
    forall i :: 0 <= i < |s| ==> !('A' <= s[i] <= 'Z')
  }

  lemma LowerIsLowered(s: string)
    ensures IsLowered(Lower(s))
    ensures Lower(Lower(s)) == Lower(s)
  {
  }

  /** `s.split(c)[0]`: the text before the first `c`, or all of `s`. */
  function CutAt(s: string, c: char): (r: string)
    ensures r <= s && c !in r
    ensures r == s || s[|r|] == c
  {
    if s == [] then []
    else if s[0] == c then []
    else [s[0]] + CutAt(s[1..], c)
  }

  /** `s.split(c, 1)[-1]`: the text after the first `c`, or all of `s` when
      `c` does not occur. */
  function AfterFirst(s: string, c: char): (r: string)
    ensures c in s ==> exists k :: 0 <= k < |s| && s[k] == c && c !in s[..k] && r == s[k + 1..]
    ensures c !in s ==> r == s
  {
    var before := CutAt(s, c);
    if before == s then s
    else
      assert s[..|before|] == before;
      s[|before| + 1..]
  }

  /** `"//" in s`. */
  predicate HasDoubleSlash(s: string)
  {
    exists i :: 0 <= i < |s| - 1 && s[i] == '/' && s[i + 1] == '/'
  }
}
