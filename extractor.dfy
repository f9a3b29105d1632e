/** `extract_posts` (monitor.py:22-36): scan the listing page for
    `empmnPblancSn=<digits>`, dedupe, sort descending as strings, keep the first
    80 and build a detail URL for each. */
module Extractor {

  import opened Wrappers
  import opened StringOrder

  /** The literal in front of the capturing group of `empmnPblancSn=(\d+)`. */
  const Marker: string := "empmnPblancSn="

  /** The slice `sns[:80]`. */
  const MaxPosts: nat := 80

  /** The detail-page template, split at the `{sn}` placeholder. */
  const DetailPrefix: string := "https://job.koica.go.kr/application/applicationDetailPage.do?empmnPblancSn="
  const DetailSuffix: string := "&entrpsSn=&menuId=MENU0098&pageIndex=1"

  /** The dictionary `{"sn": sn, "url": detail}`. */
  datatype Post = Post(sn: string, url: string)

  function Min(a: int, b: int): int
  {
    if a <= b then a else b
  }

  /** `\d`, restricted to ASCII digits. */
  predicate IsDigit(c: char)
  {
    '0' <= c <= '9'
  }

  predicate AllDigits(s: string)
  {
    forall i :: 0 <= i < |s| ==> IsDigit(s[i])
  }

  /** The greedy `\d*` at the start of `t`: the longest all-digit prefix. */
  function DigitRun(t: string): (r: string)
    ensures r <= t && AllDigits(r)
    ensures |r| == |t| || !IsDigit(t[|r|])
  {
    if |t| > 0 && IsDigit(t[0]) then [t[0]] + DigitRun(t[1..]) else ""
  }

  /** The pattern matches at position `i` of `s`: the marker, then at least one digit. */
  predicate Occurs(s: string, i: int)
  {
    0 <= i && i + |Marker| < |s| && s[i..i + |Marker|] == Marker && IsDigit(s[i + |Marker|])
  }

  /** The group captured by a match at `i`. */
  function IdAt(s: string, i: int): (r: string)
    requires Occurs(s, i)
    ensures 0 < |r| && AllDigits(r)
    ensures i + |Marker| + |r| <= |s| && s[i + |Marker|..i + |Marker| + |r|] == r
    ensures i + |Marker| + |r| == |s| || !IsDigit(s[i + |Marker| + |r|])
  {
    DigitRun(s[i + |Marker|..])
  }

  /** `re.findall(r"empmnPblancSn=(\d+)", s)`: try a match at the start; on success
      resume after it, otherwise move one character on. */
  function FindAll(s: string): (r: seq<string>)
    ensures forall k :: 0 <= k < |r| ==> 0 < |r[k]| && AllDigits(r[k])
    decreases |s|
  {
    if |s| == 0 then []
    else if Occurs(s, 0) then
      var id := IdAt(s, 0);
      [id] + FindAll(s[|Marker| + |id|..])
    else FindAll(s[1..])
  }

  /** `sns = sorted(set(re.findall(...)), reverse=True)`. */
  function Identifiers(html: string): (r: seq<string>)
    ensures StrictlyDescending(r)
    ensures forall k :: 0 <= k < |r| ==> 0 < |r[k]| && AllDigits(r[k])
    ensures forall x :: x in r <==> x in FindAll(html)
  {
    var found := FindAll(html);
    var r := SortedDistinctDesc(found);
    forall k | 0 <= k < |r| ensures 0 < |r[k]| && AllDigits(r[k]) {
      assert r[k] in r;
      var j :| 0 <= j < |found| && found[j] == r[k];
    }
    r
  }

  /** The f-string `detail` with `sn` substituted: the identifier can be read back. */
  function DetailUrl(sn: string): (url: string)
    ensures SnOfUrl(url) == Some(sn)
  {
    var url := DetailPrefix + sn + DetailSuffix;
    assert url[..|DetailPrefix|] == DetailPrefix;
    assert url[|url| - |DetailSuffix|..] == DetailSuffix;
    assert url[|DetailPrefix|..|url| - |DetailSuffix|] == sn;
    url
  }

  /** Reads the identifier back out of a detail URL. */
  function SnOfUrl(url: string): Option<string>
  {
    if |DetailPrefix| + |DetailSuffix| <= |url|
       && url[..|DetailPrefix|] == DetailPrefix
       && url[|url| - |DetailSuffix|..] == DetailSuffix
    then Some(url[|DetailPrefix|..|url| - |DetailSuffix|])
    else None
  }

  function MakePost(sn: string): (p: Post)
    ensures p.sn == sn && SnOfUrl(p.url) == Some(sn)
  {
    Post(sn, DetailUrl(sn))
  }

  /** What `extract_posts(html)` returns. */
  function Posts(html: string): (r: seq<Post>)
    ensures |r| == Min(MaxPosts, |Identifiers(html)|)
    ensures forall k :: 0 <= k < |r| ==> r[k] == MakePost(Identifiers(html)[k])
  {
    var sns := Identifiers(html);
    seq(Min(MaxPosts, |sns|), k requires 0 <= k < Min(MaxPosts, |sns|) => MakePost(sns[k]))
  }

  /** The loop of monitor.py:32-35, appending one post per kept identifier. */
  method ExtractPosts(html: string) returns (posts: seq<Post>)
    ensures posts == Posts(html)
  {
    var sns := Identifiers(html);
    var kept := sns[..Min(MaxPosts, |sns|)];
    posts := [];
    for k := 0 to |kept|
      invariant |posts| == k
      invariant forall j :: 0 <= j < k ==> posts[j] == MakePost(kept[j])
    {
      var detail := DetailUrl(kept[k]);
      posts := posts + [Post(kept[k], detail)];
    }
  }

  /** Equal identifiers give equal URLs, and only they do. */
  lemma UrlInjective(a: string, b: string)
    ensures DetailUrl(a) == DetailUrl(b) <==> a == b
  {
    var ua, ub := DetailUrl(a), DetailUrl(b);
  }

  /** A match at `k + i` of `s` is a match at `i` of `s[k..]`, with the same group. */
  lemma OccursShift(s: string, k: int, i: int)
    requires 0 <= k <= |s| && 0 <= i
    ensures Occurs(s[k..], i) <==> Occurs(s, k + i)
    ensures Occurs(s, k + i) ==> IdAt(s[k..], i) == IdAt(s, k + i)
  {
  }

  /** The marker starts with a letter and holds `=` only as its last character. */
  lemma MarkerShape()
    ensures Marker[0] == 'e' && Marker[|Marker| - 1] == '='
    ensures forall j :: 0 <= j < |Marker| - 1 ==> Marker[j] != '='
  {
  }

  lemma MarkerAt(s: string, i: int, k: int)
    requires Occurs(s, i) && 0 <= k < |Marker|
    ensures s[i + k] == Marker[k]
  {
  }

  lemma GroupAt(s: string, i: int, k: int)
    requires Occurs(s, i) && 0 <= k < |IdAt(s, i)|
    ensures IsDigit(s[i + |Marker| + k])
  {
  }

  /** The marker does not overlap itself (its only `=` is its last character) and does
      not start with a digit, so no match starts inside an earlier match. */
  lemma NoOverlap(s: string, i: int)
    requires Occurs(s, 0) && Occurs(s, i) && 0 < i
    ensures |Marker| + |IdAt(s, 0)| <= i
  {
    MarkerShape();
    MarkerAt(s, 0, |Marker| - 1);
    if i < |Marker| {
      MarkerAt(s, i, |Marker| - 1 - i);
      assert false;
    } else if i < |Marker| + |IdAt(s, 0)| {
      MarkerAt(s, i, 0);
      GroupAt(s, 0, i - |Marker|);
      assert false;
    }
  }

  /** Every identifier `findall` returns is the group of a match in `s`. */
  lemma {:induction false} FindAllSound(s: string, x: string)
    requires x in FindAll(s)
    ensures exists i :: Occurs(s, i) && IdAt(s, i) == x
    decreases |s|
  {
    if Occurs(s, 0) {
      var id := IdAt(s, 0);
      var n := |Marker| + |id|;
      if x != id {
        FindAllSound(s[n..], x);
        var i :| Occurs(s[n..], i) && IdAt(s[n..], i) == x;
        OccursShift(s, n, i);
      }
    } else {
      FindAllSound(s[1..], x);
      var i :| Occurs(s[1..], i) && IdAt(s[1..], i) == x;
      OccursShift(s, 1, i);
    }
  }

  /** Every match in `s` has its group among the identifiers `findall` returns. */
  lemma {:induction false} FindAllComplete(s: string, i: int)
    requires Occurs(s, i)
    ensures IdAt(s, i) in FindAll(s)
    decreases |s|
  {
    if Occurs(s, 0) && i == 0 {
      FindAllHead(s);
    } else {
      var n := Resume(s);
      FindAllResume(s);
      ResumeBefore(s, i);
      OccursShift(s, n, i - n);
      FindAllComplete(s[n..], i - n);
    }
  }

  /** Where the scan goes on after position 0: past the match, or one character on. */
  function Resume(s: string): (n: nat)
    requires 0 < |s|
    ensures 0 < n <= |s|
  {
    if Occurs(s, 0) then |Marker| + |IdAt(s, 0)| else 1
  }

  /** A match other than one at position 0 lies at or after where the scan goes on. */
  lemma ResumeBefore(s: string, i: int)
    requires Occurs(s, i) && !(Occurs(s, 0) && i == 0)
    ensures Resume(s) <= i
  {
    if Occurs(s, 0) {
      NoOverlap(s, i);
    }
  }

  /** Whatever the scan finds from `Resume(s)` on, it finds in `s`. */
  lemma FindAllResume(s: string)
    requires 0 < |s|
    ensures forall x :: x in FindAll(s[Resume(s)..]) ==> x in FindAll(s)
  {
    if Occurs(s, 0) {
      FindAllHead(s);
    } else {
      FindAllNext(s);
    }
  }

  /** A match at the start is reported first, and the scan resumes after it. */
  lemma FindAllHead(s: string)
    requires Occurs(s, 0)
    ensures FindAll(s) == [IdAt(s, 0)] + FindAll(s[|Marker| + |IdAt(s, 0)|..])
  {
  }

  /** Without a match at the start the scan moves one character on. */
  lemma FindAllNext(s: string)
    requires 0 < |s| && !Occurs(s, 0)
    ensures FindAll(s) == FindAll(s[1..])
  {
  }

  /** `x` is the group of some match in the page. */
  ghost predicate InPage(html: string, x: string)
  {
    exists i :: Occurs(html, i) && IdAt(html, i) == x
  }

  /** The identifiers are exactly the groups of the matches in the page. */
  lemma IdentifiersExact(html: string, x: string)
    ensures x in Identifiers(html) <==> InPage(html, x)
  {
    if x in Identifiers(html) {
      FindAllSound(html, x);
    }
    if InPage(html, x) {
      var i :| Occurs(html, i) && IdAt(html, i) == x;
      FindAllComplete(html, i);
    }
  }

  /** A page without a match gives no posts, rather than an error. */
  lemma NoMatchNoPosts(html: string)
    requires forall i :: !Occurs(html, i)
    ensures Posts(html) == []
  {
    if Identifiers(html) != [] {
      IdentifiersExact(html, Identifiers(html)[0]);
    }
  }

  /** `extract_posts` returns as many posts as there are distinct identifiers in the
      page, up to 80. */
  lemma PostsCount(html: string)
    ensures |Posts(html)| == Min(MaxPosts, |Elements(FindAll(html))|)
  {
    var ids := Identifiers(html);
    DescendingIsDistinct(ids);
    DistinctCard(ids);
    assert Elements(ids) == Elements(FindAll(html));
  }

  /** The posts are in strictly descending string order of their identifiers, so no
      identifier appears twice. */
  lemma PostsDescending(html: string)
    ensures forall i, j :: 0 <= i < j < |Posts(html)| ==> Less(Posts(html)[j].sn, Posts(html)[i].sn)
    ensures forall i, j :: 0 <= i < j < |Posts(html)| ==> Posts(html)[i].sn != Posts(html)[j].sn
  {
    var posts := Posts(html);
    forall i, j | 0 <= i < j < |posts| ensures posts[i].sn != posts[j].sn {
      if posts[i].sn == posts[j].sn {
        LessIrreflexive(posts[i].sn);
      }
    }
  }

  /** The cap keeps the first identifiers of the descending order: every identifier found
      in the page but not kept is below every kept one. */
  lemma PostsKeepLargest(html: string, x: string)
    requires x in FindAll(html) && forall j :: 0 <= j < |Posts(html)| ==> Posts(html)[j].sn != x
    ensures forall i :: 0 <= i < |Posts(html)| ==> Less(x, Posts(html)[i].sn)
  {
  }

  /** Each post's identifier is the digit run after a marker in the page, and its URL is
      the template for that identifier. */
  lemma PostsOccur(html: string)
    ensures forall i :: 0 <= i < |Posts(html)| ==> InPage(html, Posts(html)[i].sn)
    ensures forall i :: 0 <= i < |Posts(html)| ==> Posts(html)[i].url == DetailUrl(Posts(html)[i].sn)
  {
    var ids := Identifiers(html);
    forall i | 0 <= i < |Posts(html)| ensures InPage(html, Posts(html)[i].sn) {
      assert ids[i] in ids;
      IdentifiersExact(html, ids[i]);
    }
  }

  /** The number a digit string denotes. */
  function Value(s: string): nat
    requires AllDigits(s)
  {
    if s == [] then 0 else (s[0] as int - '0' as int) * Pow10(|s| - 1) + Value(s[1..])
  }

  function Pow10(n: nat): nat
  {
    if n == 0 then 1 else 10 * Pow10(n - 1)
  }

  lemma {:induction false} ValueBound(s: string)
    requires AllDigits(s)
    ensures Value(s) < Pow10(|s|)
  {
    if s != [] {
      ValueBound(s[1..]);
      var d, p := s[0] as int - '0' as int, Pow10(|s| - 1);
      assert Value(s) == d * p + Value(s[1..]) && Pow10(|s|) == 10 * p;
      MulStep(d, 10, p);
    }
  }

  lemma MulStep(x: int, y: int, p: nat)
    requires x < y
    ensures x * p + p <= y * p
  {
    assert x * p + p == (x + 1) * p;
  }

  /** For identifiers of one length the textual order is the numeric order, so the
      descending sort is newest-first as long as all identifiers have as many digits. */
  lemma {:induction false} SameLengthOrder(a: string, b: string)
    requires AllDigits(a) && AllDigits(b) && |a| == |b|
    ensures Less(a, b) <==> Value(a) < Value(b)
  {
    if a != [] {
      var da, db, p := a[0] as int - '0' as int, b[0] as int - '0' as int, Pow10(|a| - 1);
      assert Value(a) == da * p + Value(a[1..]);
      assert Value(b) == db * p + Value(b[1..]);
      if da == db {
        SameLengthOrder(a[1..], b[1..]);
      } else if da < db {
        ValueBound(a[1..]);
        MulStep(da, db, p);
        assert Less(a, b);
      } else {
        ValueBound(b[1..]);
        MulStep(db, da, p);
        assert Less(b, a);
        LessAsymmetric(b, a);
      }
    }
  }

  /** `sorted(set([...]), reverse=True)` puts "9" before "10": across lengths the
      textual order is not the numeric one. */
  lemma NineBeforeTen()
    ensures SortedDistinctDesc(["10", "9", "10"]) == ["9", "10"]
    ensures Value("9") < Value("10")
  {
  }

  /** A marker followed by a maximal digit run yields that run, and the scan goes on
      right after it. */
  lemma FindAllMarked(d: string, rest: string)
    requires 0 < |d| && AllDigits(d) && (rest == [] || !IsDigit(rest[0]))
    ensures FindAll(Marker + d + rest) == [d] + FindAll(rest)
  {
    var s := Marker + d + rest;
    assert s[..|Marker|] == Marker && s[|Marker|] == d[0];
    assert Occurs(s, 0);
    assert s[|Marker|..] == d + rest;
    DigitRunOf(d, rest);
    assert s[|Marker| + |d|..] == rest;
  }

  lemma {:induction false} DigitRunOf(d: string, rest: string)
    requires AllDigits(d) && (rest == [] || !IsDigit(rest[0]))
    ensures DigitRun(d + rest) == d
  {
    if d != [] {
      DigitRunOf(d[1..], rest);
      assert (d + rest)[1..] == d[1..] + rest;
    } else {
      assert d + rest == rest;
    }
  }

  /** A character other than the marker's first one is stepped over. */
  lemma FindAllSkip(c: char, rest: string)
    requires c != Marker[0]
    ensures FindAll([c] + rest) == FindAll(rest)
  {
  }
}
