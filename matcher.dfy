/** `keyword_match` (monitor.py:38-40) over the keyword list of monitor.py:11. */
module Matcher {

  /** `KEYWORDS`. */
  const Keywords: seq<string> := ["모집", "자동차", "전문가", "스리랑카", "직업훈련원"]

  /** `str.lower` on one character, restricted to ASCII letters. */
  function Lower(c: char): char
  {
    if 'A' <= c <= 'Z' then (c as int + 32) as char else c
  }

  /** `str.lower`: only ASCII capitals change, and none is left. */
  function LowerStr(s: string): (r: string)
    ensures |r| == |s|
    ensures forall i :: 0 <= i < |s| ==> !('A' <= r[i] <= 'Z')
    ensures forall i :: 0 <= i < |s| && r[i] != s[i] ==> 'A' <= s[i] <= 'Z'
  {
    seq(|s|, i requires 0 <= i < |s| => Lower(s[i]))
  }

  /** `k` occurs in `t` starting at position `i`. */
  predicate At(t: string, k: string, i: int)
  {
    0 <= i <= |t| - |k| && t[i..i + |k|] == k
  }

  /** `k in t` on strings: `k` occurs at some position of `t`. */
  ghost predicate Contains(t: string, k: string)
  {
    exists i :: At(t, k, i)
  }

  /** The substring test, as a scan along `t`. */
  function IsSubstring(k: string, t: string): (r: bool)
    ensures r <==> Contains(t, k)
    decreases |t|
  {
    if k <= t then
      assert At(t, k, 0);
      true
    else if |t| == 0 then false
    else
      var r := IsSubstring(k, t[1..]);
      assert Contains(t[1..], k) ==> Contains(t, k) by {
        if Contains(t[1..], k) {
          var i :| At(t[1..], k, i);
          assert t[1..][i..i + |k|] == t[i + 1..i + 1 + |k|];
          assert At(t, k, i + 1);
        }
      }
      assert Contains(t, k) ==> Contains(t[1..], k) by {
        if Contains(t, k) {
          var i :| At(t, k, i);
          assert i != 0;
          assert t[1..][i - 1..i - 1 + |k|] == t[i..i + |k|];
          assert At(t[1..], k, i - 1);
        }
      }
      r
  }

  /** `any(k.lower() in t for k in KEYWORDS)` with `t = text.lower()`: true exactly when
      some keyword occurs in the lowered text. */
  function KeywordMatch(text: string): (r: bool)
    ensures r <==> exists k :: k in Keywords && Contains(LowerStr(text), k)
  {
    KeywordsAreLower();
    var t := LowerStr(text);
    exists k :: k in Keywords && IsSubstring(LowerStr(k), t)
  }

  /** The keywords are Hangul: lowering leaves each of them as it is. */
  lemma KeywordsAreLower()
    ensures forall k :: k in Keywords ==> LowerStr(k) == k && |k| > 0
  {
  }

  /** Texts equal up to letter case get the same answer. */
  lemma KeywordMatchCaseInsensitive(a: string, b: string)
    requires LowerStr(a) == LowerStr(b)
    ensures KeywordMatch(a) == KeywordMatch(b)
  {
  }

  /** An empty page matches no keyword. */
  lemma KeywordMatchEmpty()
    ensures !KeywordMatch("")
  {
    KeywordsAreLower();
  }

  lemma LowerSlice(t: string, i: int, j: int)
    requires 0 <= i <= j <= |t|
    ensures LowerStr(t)[i..j] == LowerStr(t[i..j])
  {
  }

  /** A page containing a keyword as written matches. */
  lemma KeywordMatchVerbatim(text: string, k: string)
    requires k in Keywords && Contains(text, k)
    ensures KeywordMatch(text)
  {
    var i :| At(text, k, i);
    LowerSlice(text, i, i + |k|);
    assert At(LowerStr(text), LowerStr(k), i);
    assert IsSubstring(LowerStr(k), LowerStr(text));
  }
}
