/** The body of `main` (monitor.py:53-91) with the network and the files taken out:
    the listing page, the loaded seen set and the outcome of each detail fetch are
    inputs; the saved seen set, the new matches and the printed marker are outputs. */
module Runner {

  import opened Wrappers
  import opened StringOrder
  import opened Extractor
  import opened Matcher

  /** The slice `posts[:30]`. */
  const MaxChecked: nat := 30

  function Window<T>(s: seq<T>): (w: seq<T>)
    ensures |w| == Min(MaxChecked, |s|) && w == s[..|w|]
  {
    s[..Min(MaxChecked, |s|)]
  }

  /** The loop state: the seen set and the list of new matches. */
  datatype State = State(seen: set<string>, matches: seq<Post>)

  /** One iteration of the loop for post `p` whose detail fetch gave `fetched`: the
      identifier is added exactly when it was new and the fetch succeeded, the match list
      grows by at most `p`, and a matched post is always marked seen. */
  function Step(st: State, p: Post, fetched: Option<string>): (r: State)
    ensures st.seen <= r.seen <= st.seen + {p.sn}
    ensures r.seen != st.seen <==> p.sn !in st.seen && fetched.Some?
    ensures r.matches == st.matches || r.matches == st.matches + [p]
    ensures r.matches != st.matches ==> r.seen != st.seen
  {
    if p.sn in st.seen then st
    else match fetched
      case None => st
      case Some(text) =>
        State(st.seen + {p.sn}, if KeywordMatch(text) then st.matches + [p] else st.matches)
  }

  /** The state after the loop has gone over `posts`, post `i` fetched as `outcomes[i]`. */
  function Visit(posts: seq<Post>, outcomes: seq<Option<string>>, seen: set<string>): (r: State)
    requires |outcomes| == |posts|
    ensures seen <= r.seen <= seen + set i | 0 <= i < |posts| :: posts[i].sn
    ensures |r.matches| <= |posts| && forall q :: q in r.matches ==> q in posts
  {
    if posts == [] then State(seen, [])
    else
      var n := |posts| - 1;
      Step(Visit(posts[..n], outcomes[..n], seen), posts[n], outcomes[n])
  }

  /** The identifiers a run adds: those of the checked posts not seen before whose fetch
      succeeded. */
  ghost function Added(posts: seq<Post>, outcomes: seq<Option<string>>, seen: set<string>): set<string>
    requires |outcomes| == |posts|
  {
    set i | 0 <= i < |posts| && posts[i].sn !in seen && outcomes[i].Some? :: posts[i].sn
  }

  /** The in-order list of posts not seen before whose fetched page matches a keyword. */
  function Hits(posts: seq<Post>, outcomes: seq<Option<string>>, seen: set<string>): seq<Post>
    requires |outcomes| == |posts|
  {
    if posts == [] then []
    else
      var n := |posts| - 1;
      var p := posts[n];
      Hits(posts[..n], outcomes[..n], seen)
        + (if p.sn !in seen && outcomes[n].Some? && KeywordMatch(outcomes[n].value) then [p] else [])
  }

  ghost predicate DistinctIds(posts: seq<Post>)
  {
    forall i, j :: 0 <= i < j < |posts| ==> posts[i].sn != posts[j].sn
  }

  /** The saved seen set is the loaded one plus the identifiers the run examined. */
  lemma {:induction false} VisitSeen(posts: seq<Post>, outcomes: seq<Option<string>>, seen: set<string>)
    requires |outcomes| == |posts|
    ensures Visit(posts, outcomes, seen).seen == seen + Added(posts, outcomes, seen)
  {
    if posts != [] {
      var n := |posts| - 1;
      VisitSeen(posts[..n], outcomes[..n], seen);
      AddedLast(posts, outcomes, seen);
    }
  }

  /** `Added` over a sequence is `Added` over all but its last post, plus that post when
      it is new and fetched. */
  lemma AddedLast(posts: seq<Post>, outcomes: seq<Option<string>>, seen: set<string>)
    requires |outcomes| == |posts| && posts != []
    ensures var n := |posts| - 1;
            Added(posts, outcomes, seen)
            == Added(posts[..n], outcomes[..n], seen)
               + (if posts[n].sn !in seen && outcomes[n].Some? then {posts[n].sn} else {})
  {
    var n := |posts| - 1;
    var before := Added(posts[..n], outcomes[..n], seen);
    forall x | x in Added(posts, outcomes, seen)
      ensures x in before || (x == posts[n].sn && posts[n].sn !in seen && outcomes[n].Some?)
    {
      var i :| 0 <= i < |posts| && posts[i].sn !in seen && outcomes[i].Some? && posts[i].sn == x;
      if i < n {
        assert posts[..n][i] == posts[i] && outcomes[..n][i] == outcomes[i];
      }
    }
    forall x | x in before ensures x in Added(posts, outcomes, seen) {
      var i :| 0 <= i < n && posts[..n][i].sn !in seen && outcomes[..n][i].Some? && posts[..n][i].sn == x;
      assert posts[..n][i] == posts[i] && outcomes[..n][i] == outcomes[i];
    }
  }

  /** When the checked posts have distinct identifiers, the new matches are exactly the
      posts not seen before whose fetched page matches. */
  lemma {:induction false} VisitMatches(posts: seq<Post>, outcomes: seq<Option<string>>, seen: set<string>)
    requires |outcomes| == |posts| && DistinctIds(posts)
    ensures Visit(posts, outcomes, seen).matches == Hits(posts, outcomes, seen)
  {
    if posts != [] {
      var n := |posts| - 1;
      VisitMatches(posts[..n], outcomes[..n], seen);
      VisitSeen(posts[..n], outcomes[..n], seen);
      assert posts[n].sn !in Added(posts[..n], outcomes[..n], seen);
    }
  }

  /** The loop of monitor.py:61-76. */
  method CheckPosts(posts: seq<Post>, outcomes: seq<Option<string>>, seen0: set<string>)
    returns (seen: set<string>, newMatches: seq<Post>)
    requires |outcomes| == |posts|
    ensures State(seen, newMatches) == Visit(Window(posts), Window(outcomes), seen0)
    ensures seen == seen0 + Added(Window(posts), Window(outcomes), seen0)
    ensures DistinctIds(Window(posts)) ==> newMatches == Hits(Window(posts), Window(outcomes), seen0)
  {
    var w, o := Window(posts), Window(outcomes);
    seen, newMatches := seen0, [];
    for i := 0 to |w|
      invariant State(seen, newMatches) == Visit(w[..i], o[..i], seen0)
    {
      assert w[..i + 1][..i] == w[..i] && o[..i + 1][..i] == o[..i];
      var p := w[i];
      if p.sn in seen {
        continue;
      }
      var fetched := o[i];
      if fetched.None? {
        continue;
      }
      if KeywordMatch(fetched.value) {
        newMatches := newMatches + [p];
      }
      seen := seen + {p.sn};
    }
    assert w[..|w|] == w && o[..|o|] == o;
    VisitSeen(w, o, seen0);
    if DistinctIds(w) {
      VisitMatches(w, o, seen0);
    }
  }

  /** `main` from the listing page to the printed marker. */
  method RunMonitor(html: string, seen0: set<string>, outcomes: seq<Option<string>>)
    returns (seen: set<string>, newMatches: seq<Post>, marker: string)
    requires |outcomes| == |Posts(html)|
    ensures seen == seen0 + Added(Window(Posts(html)), Window(outcomes), seen0)
    ensures newMatches == Hits(Window(Posts(html)), Window(outcomes), seen0)
    ensures marker == "FOUND=1" <==> newMatches != []
    ensures marker == "FOUND=0" <==> newMatches == []
  {
    var posts := ExtractPosts(html);
    PostsDescending(html);
    seen, newMatches := CheckPosts(posts, outcomes, seen0);
    if newMatches != [] {
      marker := "FOUND=1";
    } else {
      marker := "FOUND=0";
    }
  }

  /** Entries of the seen set are never removed. */
  lemma SeenOnlyGrows(posts: seq<Post>, outcomes: seq<Option<string>>, seen: set<string>)
    requires |outcomes| == |posts|
    ensures seen <= Visit(Window(posts), Window(outcomes), seen).seen
  {
    VisitSeen(Window(posts), Window(outcomes), seen);
  }

  /** A post whose detail fetch failed is left unseen, to be tried on the next run. */
  lemma FailedStaysUnseen(posts: seq<Post>, outcomes: seq<Option<string>>, seen: set<string>, i: nat)
    requires |outcomes| == |posts| && DistinctIds(posts)
    requires i < |posts| && outcomes[i] == None && posts[i].sn !in seen
    ensures posts[i].sn !in Visit(Window(posts), Window(outcomes), seen).seen
  {
    var w, o := Window(posts), Window(outcomes);
    VisitSeen(w, o, seen);
    forall j | 0 <= j < |w| && w[j].sn == posts[i].sn ensures o[j].None? {
      assert w[j] == posts[j] && o[j] == outcomes[j];
      SameIdSameIndex(posts, i, j);
    }
    NotAdded(w, o, seen, posts[i].sn);
  }

  lemma SameIdSameIndex(posts: seq<Post>, i: int, j: int)
    requires DistinctIds(posts) && 0 <= i < |posts| && 0 <= j < |posts| && posts[i].sn == posts[j].sn
    ensures i == j
  {
  }

  /** An identifier none of whose posts was both new and fetched is not added. */
  lemma NotAdded(posts: seq<Post>, outcomes: seq<Option<string>>, seen: set<string>, x: string)
    requires |outcomes| == |posts|
    requires forall j :: 0 <= j < |posts| && posts[j].sn == x ==> x in seen || outcomes[j].None?
    ensures x !in Added(posts, outcomes, seen)
  {
  }

  /** A post past the first 30 is never added. */
  lemma UncheckedNeverAdded(posts: seq<Post>, outcomes: seq<Option<string>>, seen: set<string>, i: nat)
    requires |outcomes| == |posts| && DistinctIds(posts)
    requires MaxChecked <= i < |posts| && posts[i].sn !in seen
    ensures posts[i].sn !in Visit(Window(posts), Window(outcomes), seen).seen
  {
    VisitSeen(Window(posts), Window(outcomes), seen);
  }

  /** When every checked post was seen before, nothing is fetched, added or matched. */
  lemma {:induction false} AllSeenNothingNew(posts: seq<Post>, outcomes: seq<Option<string>>, seen: set<string>)
    requires |outcomes| == |posts|
    requires forall i :: 0 <= i < |posts| ==> posts[i].sn in seen
    ensures Visit(posts, outcomes, seen) == State(seen, [])
  {
    if posts != [] {
      var n := |posts| - 1;
      AllSeenNothingNew(posts[..n], outcomes[..n], seen);
    }
  }

  /** A listing page holding one link per identifier of `ids`, in that order. */
  function Listing(ids: seq<string>): string
  {
    if ids == [] then "" else Marker + ids[0] + " " + Listing(ids[1..])
  }

  lemma {:induction false} FindAllListing(ids: seq<string>)
    requires forall k :: 0 <= k < |ids| ==> 0 < |ids[k]| && AllDigits(ids[k])
    ensures FindAll(Listing(ids)) == ids
  {
    if ids != [] {
      var rest := Listing(ids[1..]);
      assert Listing(ids) == Marker + ids[0] + ([' '] + rest);
      FindAllMarked(ids[0], [' '] + rest);
      FindAllSkip(' ', rest);
      FindAllListing(ids[1..]);
      assert ids == [ids[0]] + ids[1..];
    }
  }

  /** The listing page of the scenario below: identifiers 5, 3 and 9. */
  const ScenarioListing: string := Listing(["5", "3", "9"])

  lemma ScenarioOrder()
    ensures StrictlyDescending(["9", "5", "3"])
  {
    assert Less("3", "5") && Less("5", "9") && Less("3", "9");
  }

  lemma ScenarioScan()
    ensures FindAll(ScenarioListing) == ["5", "3", "9"]
  {
    FindAllListing(["5", "3", "9"]);
  }

  lemma ScenarioIdentifiers()
    ensures Identifiers(ScenarioListing) == ["9", "5", "3"]
  {
    ScenarioScan();
    IdentifiersOfScan(ScenarioListing);
  }

  /** Any page whose scan finds 5, 3 and 9 has the identifiers 9, 5 and 3. */
  lemma IdentifiersOfScan(html: string)
    requires FindAll(html) == ["5", "3", "9"]
    ensures Identifiers(html) == ["9", "5", "3"]
  {
    ScenarioOrder();
    var ids := Identifiers(html);
    assert forall x :: x in ids <==> x in ["9", "5", "3"];
    assert Elements(ids) == Elements(["9", "5", "3"]);
    DescendingUnique(ids, ["9", "5", "3"]);
  }

  lemma ScenarioPosts()
    ensures Posts(ScenarioListing) == [MakePost("9"), MakePost("5"), MakePost("3")]
  {
    ScenarioIdentifiers();
    PostsOfIdentifiers(ScenarioListing);
  }

  /** Any page with the identifiers 9, 5 and 3 gives the posts of 9, 5 and 3. */
  lemma PostsOfIdentifiers(html: string)
    requires Identifiers(html) == ["9", "5", "3"]
    ensures Posts(html) == [MakePost("9"), MakePost("5"), MakePost("3")]
  {
    var r := Posts(html);
    assert |r| == 3;
    assert r[0] == MakePost("9") && r[1] == MakePost("5") && r[2] == MakePost("3");
  }

  /** A post whose page was fetched and does not match ends up seen, whether or not it
      was seen before, and adds no match. */
  lemma StepMiss(st: State, p: Post, miss: string)
    requires !KeywordMatch(miss)
    ensures Step(st, p, Some(miss)) == State(st.seen + {p.sn}, st.matches)
  {
    if p.sn in st.seen {
      assert st.seen + {p.sn} == st.seen;
    }
  }

  /** Visiting one more post is one more `Step`. */
  lemma VisitSnoc(posts: seq<Post>, outcomes: seq<Option<string>>, seen: set<string>, p: Post, o: Option<string>)
    requires |outcomes| == |posts|
    ensures Visit(posts + [p], outcomes + [o], seen) == Step(Visit(posts, outcomes, seen), p, o)
  {
    assert (posts + [p])[..|posts|] == posts && (outcomes + [o])[..|posts|] == outcomes;
  }

  /** Visiting three posts is three `Step`s from the empty state. */
  lemma VisitSteps(a: Post, b: Post, c: Post, oa: Option<string>, ob: Option<string>, oc: Option<string>)
    ensures Visit([a, b, c], [oa, ob, oc], {}) == Step(Step(Step(State({}, []), a, oa), b, ob), c, oc)
  {
    VisitSnoc([], [], {}, a, oa);
    assert [] + [a] == [a] && [] + [oa] == [oa];
    VisitSnoc([a], [oa], {}, b, ob);
    assert [a] + [b] == [a, b] && [oa] + [ob] == [oa, ob];
    VisitSnoc([a, b], [oa, ob], {}, c, oc);
    assert [a, b] + [c] == [a, b, c] && [oa, ob] + [oc] == [oa, ob, oc];
  }

  /** Three posts on an empty seen set, of which only the first has a matching page. */
  lemma VisitThree(a: Post, b: Post, c: Post, hit: string, miss: string)
    requires KeywordMatch(hit) && !KeywordMatch(miss)
    ensures Visit([a, b, c], [Some(hit), Some(miss), Some(miss)], {}) == State({a.sn, b.sn, c.sn}, [a])
  {
    VisitSteps(a, b, c, Some(hit), Some(miss), Some(miss));
    var s1 := State({a.sn}, [a]);
    assert Step(State({}, []), a, Some(hit)) == s1;
    StepMiss(s1, b, miss);
    assert {a.sn} + {b.sn} == {a.sn, b.sn};
    StepMiss(State({a.sn, b.sn}, [a]), c, miss);
    assert {a.sn, b.sn} + {c.sn} == {a.sn, b.sn, c.sn};
  }

  /** Identifiers 5, 3 and 9 on an empty seen set, where only the page of 9 names a
      keyword: all three end up seen and only post 9 is reported. */
  lemma ScenarioNewMatch()
    ensures var outcomes := [Some("모집 공고"), Some(""), Some("")];
            |Posts(ScenarioListing)| == |outcomes|
            && Visit(Window(Posts(ScenarioListing)), Window(outcomes), {}) == State({"3", "5", "9"}, [MakePost("9")])
  {
    ScenarioPosts();
    NewMatchOfPosts(Posts(ScenarioListing));
  }

  /** The run of the scenario on its three posts. */
  lemma NewMatchOfPosts(posts: seq<Post>)
    requires posts == [MakePost("9"), MakePost("5"), MakePost("3")]
    ensures var outcomes := [Some("모집 공고"), Some(""), Some("")];
            |posts| == |outcomes|
            && Visit(Window(posts), Window(outcomes), {}) == State({"3", "5", "9"}, [MakePost("9")])
  {
    var outcomes := [Some("모집 공고"), Some(""), Some("")];
    assert Window(posts) == posts && Window(outcomes) == outcomes;
    KeywordMatchVerbatim("모집 공고", "모집") by {
      assert At("모집 공고", "모집", 0);
    }
    KeywordMatchEmpty();
    VisitThree(MakePost("9"), MakePost("5"), MakePost("3"), "모집 공고", "");
  }
}
