/** When a group of traces that is polled again, in whatever order, keeps its trace id. */
module TraceIds {
  import opened Correlate
  import opened Cluster
  import opened Permutations
  import opened Timeline
  import Aggregator
  import LinkNames
  import Text

  /** What a merged trace's id is made of. */
  datatype Identity = Identity(start: int, link: string, roots: seq<string>)

  /** The time of the first span, Go's zero time without one. */
  ghost predicate Earliest(spans: seq<DSpan>, t: int) {
    if spans == [] then t == ZERO_TIME
    else (exists s :: s in spans && s.abs == t) && forall s :: s in spans ==> t <= s.abs
  }

  /** What merging `g` can yield: the link is any with most votes. */
  ghost predicate IdentityOf(g: seq<Trace>, x: Identity) {
    Earliest(Placed(g), x.start) && Elected(g, x.link) && RootsOf(g, x.roots)
  }

  /** Every merged trace has such an identity. */
  lemma MergeIdentity(g: seq<Trace>, dt: DTrace)
    requires IsTimeline(Placed(g), dt) && Elected(g, dt.link) && RootsOf(g, dt.roots)
    ensures IdentityOf(g, Identity(dt.start, dt.link, dt.roots))
  {
    hide Elected, RootsOf, Placed;
    var sorted: seq<DSpan> :| Permutes(sorted, Placed(g)) && ByTime(sorted) && dt.spans == WithOffsets(sorted) &&
                              dt.start == StartOf(sorted);
    PermutesMembers(sorted, Placed(g));
    if sorted == [] {
      assert |multiset(Placed(g))| == 0;
    } else {
      assert sorted[0] in sorted;
    }
  }

  // ---- what does not depend on the order ----

  function LinkOf(t: Trace): string {
    LinkNames.LinkKey(t.root)
  }

  function RootText(t: Trace): string {
    t.node + ": " + t.root
  }

  lemma VotesSnoc(init: seq<Trace>, t: Trace, k: string)
    ensures Votes(init + [t], k) == Votes(init, k) + if k != "" && LinkOf(t) == k then 1 else 0
  {
    hide LinkNames.LinkKey;
    assert (init + [t])[..|init|] == init;
  }

  lemma {:induction false} VotesTakeOut(g: seq<Trace>, i: nat, t: Trace, rest: seq<Trace>, k: string)
    requires TakenOut(g, i, t, rest)
    ensures Votes(g, k) == Votes(rest, k) + if k != "" && LinkOf(t) == k then 1 else 0
  {
    hide Votes, LinkOf;
    var n := |g| - 1;
    var init, last := g[..n], g[n];
    assert g == init + [last];
    VotesSnoc(init, last, k);
    if i == n {
      assert rest == init;
    } else {
      var short := init[..i] + init[i + 1..];
      VotesTakeOut(init, i, t, short, k);
      assert rest == short + [last];
      VotesSnoc(short, last, k);
    }
  }

  lemma {:induction false} NoVotes(g: seq<Trace>)
    ensures Votes(g, "") == 0
  {
    if g != [] { NoVotes(g[..|g| - 1]); }
  }

  lemma {:induction false} SameVotes(g: seq<Trace>, g': seq<Trace>, k: string)
    requires Permutes(g', g)
    ensures Votes(g', k) == Votes(g, k)
    decreases |g|
  {
    PermutesLength(g', g);
    if g != [] {
      hide *;
      var t, rest := g[0], g[1..];
      TakeFirst(g);
      PermutesSym(g', g);
      PermutesHolds(g, g', t);
      var i, more := TakeOut(g', t);
      RestPermutes(g', i, g, 0, t, more, rest);
      SameVotes(rest, more, k);
      VotesTakeOut(g, 0, t, rest, k);
      VotesTakeOut(g', i, t, more, k);
    }
  }

  lemma SameElected(g: seq<Trace>, g': seq<Trace>, link: string)
    requires Permutes(g', g)
    ensures Elected(g', link) <==> Elected(g, link)
  {
    hide Votes;
    forall k ensures Votes(g', k) == Votes(g, k) { SameVotes(g, g', k); }
  }

  lemma SameEarliest(g: seq<Trace>, g': seq<Trace>, t: int, t': int)
    requires Permutes(g', g) && Earliest(Placed(g), t) && Earliest(Placed(g'), t')
    ensures t == t'
  {
    hide Placed;
    Aggregator.PlacedPermutes(g', g);
    PermutesMembers(Placed(g'), Placed(g));
    PermutesLength(Placed(g'), Placed(g));
  }

  lemma SameStarts(g: seq<Trace>, g': seq<Trace>, i: nat)
    requires Sorted(g) && Sorted(g') && Permutes(g', g) && i < |g|
    ensures |g'| == |g| && g'[i].start == g[i].start && g'[i] in g
  {
    var start := (t: Trace) => t.start;
    MapPermutes(start, g', g);
    OneOrder(Map(start, g'), Map(start, g));
    assert Map(start, g')[i] == Map(start, g)[i];
    PermutesMembers(g', g);
  }

  // ---- existence ----

  lemma {:induction false} SomeElected(g: seq<Trace>) returns (link: string)
    ensures Elected(g, link)
  {
    if g == [] {
      link := "";
    } else {
      hide LinkNames.LinkKey;
      var n := |g| - 1;
      var best := SomeElected(g[..n]);
      var k := LinkOf(g[n]);
      link := if k != "" && (best == "" || Votes(g[..n], k) >= Votes(g[..n], best)) then k else best;
      NoVotes(g);
      assert forall l :: Votes(g, l) == Votes(g[..n], l) + if l != "" && l == k then 1 else 0;
    }
  }

  lemma {:induction false} SomeEarliest(spans: seq<DSpan>) returns (t: int)
    ensures Earliest(spans, t)
  {
    if spans == [] {
      t := ZERO_TIME;
    } else {
      var n := |spans| - 1;
      assert spans == spans[..n] + [spans[n]];
      t := SomeEarliest(spans[..n]);
      if n == 0 || spans[n].abs < t { t := spans[n].abs; }
    }
  }

  // ---- one id ----

  /** Traces that start together have the same text. */
  ghost predicate SameStartSameText(g: seq<Trace>) {
    forall s, t :: s in g && t in g && s.start == t.start ==> RootText(s) == RootText(t)
  }

  /** Two links share the most votes. */
  ghost predicate TopTie(g: seq<Trace>) {
    exists k, l :: k != l && Votes(g, k) == Votes(g, l) > 0 && forall m :: Votes(g, m) <= Votes(g, k)
  }

  /** All sorted orders of the traces of `g` merge to one identity. */
  ghost predicate OneIdentity(g: seq<Trace>) {
    forall g', x, x' :: Sorted(g') && Permutes(g', g) && IdentityOf(g, x) && IdentityOf(g', x') ==> x == x'
  }

  lemma IdentityUnique(g: seq<Trace>, g': seq<Trace>, x: Identity, x': Identity)
    requires Sorted(g) && Sorted(g') && Permutes(g', g) && IdentityOf(g, x) && IdentityOf(g', x')
    requires SameStartSameText(g) && !TopTie(g)
    ensures x == x'
  {
    hide Votes, Earliest, Sorted, Placed;
    SameEarliest(g, g', x.start, x'.start);
    SameElected(g, g', x'.link);
    NoVotes(g);
    assert x.link == x'.link;
    PermutesMembers(g', g);
    PermutesLength(g', g);
    forall i | 0 <= i < |g| ensures x.roots[i] == x'.roots[i] {
      SameStarts(g, g', i);
    }
  }

  lemma TieShows(g: seq<Trace>) returns (x: Identity, x': Identity)
    requires TopTie(g)
    ensures IdentityOf(g, x) && IdentityOf(g, x') && x.start == x'.start && x.roots == x'.roots && x.link != x'.link
  {
    hide Votes, Earliest;
    NoVotes(g);
    var k, l :| k != l && Votes(g, k) == Votes(g, l) > 0 && forall m :: Votes(g, m) <= Votes(g, k);
    var start := SomeEarliest(Placed(g));
    x, x' := Identity(start, k, Map(RootText, g)), Identity(start, l, Map(RootText, g));
  }

  lemma SwapShows(g: seq<Trace>) returns (g': seq<Trace>, x: Identity, x': Identity)
    requires Sorted(g) && !SameStartSameText(g)
    ensures Sorted(g') && Permutes(g', g) && IdentityOf(g, x) && IdentityOf(g', x') && x.roots != x'.roots
  {
    var s, t :| s in g && t in g && s.start == t.start && RootText(s) != RootText(t);
    var i :| 0 <= i < |g| && g[i] == s;
    var j :| 0 <= j < |g| && g[j] == t;
    hide Votes, Earliest, Elected, Sorted, Placed;
    var a, b := if i < j then i else j, if i < j then j else i;
    g' := Swapped(g, a, b);
    var link := SomeElected(g);
    SameElected(g, g', link);
    var start := SomeEarliest(Placed(g));
    var start' := SomeEarliest(Placed(g'));
    x, x' := Identity(start, link, Map(RootText, g)), Identity(start', link, Map(RootText, g'));
    assert x.roots[a] != x'.roots[a];
  }

  /** Traces that start together may stand in either order. */
  lemma Swapped(g: seq<Trace>, a: nat, b: nat) returns (g': seq<Trace>)
    requires Sorted(g) && a < b < |g| && g[a].start == g[b].start
    ensures g' == g[a := g[b]][b := g[a]] && Sorted(g') && Permutes(g', g)
  {
    g' := g[a := g[b]][b := g[a]];
    assert forall k :: 0 <= k < |g| ==> g'[k].start == g[k].start;
    SwapPermutes(g, a, b);
  }

  /** Polling order, sort ties and the walk over the votes never change a group's identity
      exactly when traces that start together have the same text and no two links share
      the most votes. */
  lemma IdentityIff(g: seq<Trace>)
    requires Sorted(g)
    ensures OneIdentity(g) <==> SameStartSameText(g) && !TopTie(g)
  {
    hide Sorted, IdentityOf, SameStartSameText, TopTie;
    if SameStartSameText(g) && !TopTie(g) {
      forall g', x, x' | Sorted(g') && Permutes(g', g) && IdentityOf(g, x) && IdentityOf(g', x') ensures x == x' {
        IdentityUnique(g, g', x, x');
      }
    } else if TopTie(g) {
      var x, x' := TieShows(g);
    } else {
      var g', x, x' := SwapShows(g);
    }
  }

  // ---- the text of the id ----

  function SeedOf(stamp: int -> string, x: Identity): string {
    Seed(stamp, x.start, x.link, x.roots)
  }

  predicate PlainIdentity(x: Identity) {
    '|' !in x.link && x.roots != [] && forall r :: r in x.roots ==> ';' !in r
  }

  /** No separator of the seed occurs in the texts of the traces. */
  ghost predicate PlainTexts(g: seq<Trace>) {
    forall t :: t in g ==> '|' !in LinkOf(t) && ';' !in RootText(t)
  }

  lemma SeedFaithful(stamp: int -> string, x: Identity, y: Identity)
    requires x.start == y.start && PlainIdentity(x) && PlainIdentity(y) && SeedOf(stamp, x) == SeedOf(stamp, y)
    ensures x == y
  {
    var time, p, q := stamp(x.start) + "|", Text.Join(x.roots, ';'), Text.Join(y.roots, ';');
    var u, w := x.link + ['|'] + p, y.link + ['|'] + q;
    assert SeedOf(stamp, x) == time + u && SeedOf(stamp, y) == time + w;
    assert u == (time + u)[|time|..] && w == (time + w)[|time|..];
    Text.CutUnique(x.link, p, y.link, q, '|');
    Text.SplitJoin(x.roots, ';');
    Text.SplitJoin(y.roots, ';');
  }

  lemma {:induction false} VotedFor(g: seq<Trace>, k: string)
    requires Votes(g, k) > 0
    ensures exists t :: t in g && LinkOf(t) == k
  {
    hide LinkNames.LinkKey;
    var n := |g| - 1;
    if k != "" && LinkOf(g[n]) == k {
      assert g[n] in g;
    } else {
      VotedFor(g[..n], k);
    }
  }

  lemma IdentityIsPlain(g: seq<Trace>, x: Identity)
    requires PlainTexts(g) && g != [] && IdentityOf(g, x)
    ensures PlainIdentity(x)
  {
    hide Votes, Earliest, LinkNames.LinkKey;
    if x.link != "" { VotedFor(g, x.link); }
    forall r | r in x.roots ensures ';' !in r {
      var i :| 0 <= i < |g| && x.roots[i] == r;
      assert r == RootText(g[i]) && g[i] in g;
    }
  }

  /** All sorted orders of the traces of `g` merge to one seed. */
  ghost predicate OneSeed(stamp: int -> string, g: seq<Trace>) {
    forall g', x, x' :: Sorted(g') && Permutes(g', g) && IdentityOf(g, x) && IdentityOf(g', x') ==>
      SeedOf(stamp, x) == SeedOf(stamp, x')
  }

  /** The same for the text that is digested, when no separator of it occurs in the texts of
      the traces; whatever they hold, one identity gives one seed. */
  lemma SeedIff(stamp: int -> string, g: Batch)
    requires Sorted(g)
    ensures SameStartSameText(g) && !TopTie(g) ==> OneSeed(stamp, g)
    ensures PlainTexts(g) ==> (OneSeed(stamp, g) <==> SameStartSameText(g) && !TopTie(g))
  {
    hide Sorted, IdentityOf, SameStartSameText, TopTie, PlainTexts, PlainIdentity, SeedOf, LinkOf, RootText;
    IdentityIff(g);
    if PlainTexts(g) && OneSeed(stamp, g) {
      forall g', x, x' | Sorted(g') && Permutes(g', g) && IdentityOf(g, x) && IdentityOf(g', x') ensures x == x' {
        SameIdentity(stamp, g, g', x, x');
      }
    }
  }

  lemma SameIdentity(stamp: int -> string, g: Batch, g': seq<Trace>, x: Identity, x': Identity)
    requires Permutes(g', g) && PlainTexts(g) && IdentityOf(g, x) && IdentityOf(g', x')
    requires SeedOf(stamp, x) == SeedOf(stamp, x')
    ensures x == x'
  {
    hide PlainIdentity, SeedOf, LinkOf, RootText, Elected, RootsOf;
    PermutesMembers(g', g);
    PermutesLength(g', g);
    IdentityIsPlain(g, x);
    IdentityIsPlain(g', x');
    SameEarliest(g, g', x.start, x'.start);
    SeedFaithful(stamp, x, x');
  }

  /** Two traces that name different links have a tie. */
  lemma TwoLinksTie(s: Trace, t: Trace)
    requires LinkOf(s) != "" && LinkOf(t) != "" && LinkOf(s) != LinkOf(t)
    ensures TopTie([s, t])
  {
    hide LinkNames.LinkKey;
    var k, l := LinkOf(s), LinkOf(t);
    assert [s, t][..1] == [s] && [s][..0] == [];
    assert forall m :: Votes([s], m) == if m == k then 1 else 0;
    assert forall m :: Votes([s, t], m) == if m == k || m == l then 1 else 0;
    assert Votes([s, t], k) == Votes([s, t], l);
  }

  /** Two links that fail together: each has one vote, and the id depends on the walk. */
  lemma TieExample(s: Trace, t: Trace)
    requires s.root == "netlink/link-down p-q" && t.root == "netlink/link-down r-s" && s.start <= t.start
    ensures Sorted([s, t]) && !OneIdentity([s, t])
  {
    hide LinkNames.LinkKey, Votes, TopTie, OneIdentity;
    OneLink("p", "q");
    OneLink("r", "s");
    assert LinkNames.LinkRoot("down", "p" + "-" + "q") == "netlink/link-down p-q";
    assert LinkNames.LinkRoot("down", "r" + "-" + "s") == "netlink/link-down r-s";
    var k, l := LinkOf(s), LinkOf(t);
    assert k[0] == 'p' && l[0] == 'r';
    TwoLinksTie(s, t);
    IdentityIff([s, t]);
  }

  lemma OneLink(x: string, y: string)
    requires |x| == |y| == 1 && 'a' <= x[0] < y[0] <= 'z'
    ensures LinkNames.LinkKey(LinkNames.LinkRoot("down", x + "-" + y)) == x + "--" + y
  {
    LinkNames.LinkKeySymmetric("down", "down", x, y);
    assert !Text.Less(y, x);
  }
}
