/** The page-view counter of src/app/actions/pageViews.ts: one Redis counter
    per article under a namespaced key, incremented with INCR, and a
    celebration notice whenever the incremented value is exactly one of the
    fixed milestones.  Redis is modelled as a map from keys to integers; the
    unawaited e-mail dispatch becomes an emitted `Celebration` value. */
module PageViews {
  import opened Wrappers
  import JsNumbers

  const KeyPrefix: string := "pageviews:article"

  /** The counter key of an article: the prefix followed by `${id}`. */
  function KeyFor(id: int): string {
    KeyPrefix + JsNumbers.IntToDecimal(id)
  }

  lemma KeyForPrefix(id: int)
    ensures |KeyPrefix| < |KeyFor(id)| && KeyFor(id)[..|KeyPrefix|] == KeyPrefix
  {
  }

  /** The part of a key after the prefix reads back as the article id. */
  lemma KeyForReadsBack(id: int)
    ensures JsNumbers.ToNumber(KeyFor(id)[|KeyPrefix|..]) == Some(id)
  {
    JsNumbers.IntToDecimalRoundTrip(id);
    assert KeyFor(id)[|KeyPrefix|..] == JsNumbers.IntToDecimal(id);
  }

  /** Distinct articles never share a counter. */
  lemma KeyForInjective(a: int, b: int)
    ensures KeyFor(a) == KeyFor(b) <==> a == b
  {
    if KeyFor(a) == KeyFor(b) {
      KeyForReadsBack(a);
      KeyForReadsBack(b);
      assert KeyFor(a)[|KeyPrefix|..] == KeyFor(b)[|KeyPrefix|..];
    }
  }

  /** The view counts that earn a celebration, ascending. */
  const Milestones: seq<int> := [10, 50, 100, 10000]

  predicate IsMilestone(v: int) {
    v in Milestones
  }

  /** Redis stores counters as signed 64-bit integers. */
  const MaxCounter: int := 0x7FFF_FFFF_FFFF_FFFF

  type Counters = map<string, int>

  /** The value INCR starts from: an absent key counts as 0. */
  function Current(counters: Counters, key: string): int {
    Get(counters, key).GetOr(0)
  }

  /** Counters only ever produced by INCR from an absent key. */
  predicate Valid(counters: Counters) {
    forall k :: k in counters ==> 0 <= counters[k] <= MaxCounter
  }

  /** Redis refuses an INCR that would leave the 64-bit range. */
  datatype CounterError = Overflow

  datatype Incremented = Incremented(counters: Counters, value: int)

  /** Redis INCR on one key. */
  function Incr(counters: Counters, key: string): (r: Result<Incremented, CounterError>)
    ensures r.Failure? <==> Current(counters, key) >= MaxCounter
    ensures r.Success? ==> r.value.value == Current(counters, key) + 1
    ensures r.Success? ==> key in r.value.counters && r.value.counters[key] == r.value.value
    ensures r.Success? ==> forall k :: k != key ==> Get(r.value.counters, k) == Get(counters, k)
  {
    var v := Current(counters, key);
    if v >= MaxCounter then Failure(Overflow)
    else Success(Incremented(counters[key := v + 1], v + 1))
  }

  /** The notice handed to the celebration e-mail sender. */
  datatype Celebration = Celebration(articleId: int, views: int)

  /** What one recorded view produces: the new counters, the returned view
      count and at most one celebration. */
  datatype PageView = PageView(counters: Counters, views: int, celebration: Option<Celebration>)

  /** incrementPageView: INCR the article's counter, celebrate an exact
      milestone hit, return the new count.  An INCR failure propagates. */
  function IncrementPageView(counters: Counters, articleId: int): (r: Result<PageView, CounterError>)
    ensures r.Failure? <==> Current(counters, KeyFor(articleId)) >= MaxCounter
    ensures r.Success? ==> r.value.views == Current(counters, KeyFor(articleId)) + 1
    ensures r.Success? ==> Current(r.value.counters, KeyFor(articleId)) == r.value.views
    ensures r.Success? ==> forall k :: k != KeyFor(articleId) ==> Get(r.value.counters, k) == Get(counters, k)
    ensures r.Success? ==> (r.value.celebration.Some? <==> IsMilestone(r.value.views))
    ensures r.Success? && r.value.celebration.Some? ==>
              r.value.celebration.value == Celebration(articleId, r.value.views)
    ensures r.Success? && Valid(counters) ==> Valid(r.value.counters) && r.value.views >= 1
  {
    match Incr(counters, KeyFor(articleId))
    case Failure(e) => Failure(e)
    case Success(inc) =>
      var celebration := if inc.value in Milestones then Some(Celebration(articleId, inc.value)) else None;
      Success(PageView(inc.counters, inc.value, celebration))
  }

  function Emitted(c: Option<Celebration>): seq<Celebration> {
    if c.Some? then [c.value] else []
  }

  /** The outcome of several sequential views of one article. */
  datatype Views = Views(counters: Counters, celebrations: seq<Celebration>)

  /** n views of one article, one after the other, collecting celebrations
      in the order they are sent. */
  function RecordViews(counters: Counters, articleId: int, n: nat): Result<Views, CounterError>
    decreases n, 1
  {
    if n == 0 then Success(Views(counters, []))
    else ContinueViews(IncrementPageView(counters, articleId), articleId, n - 1)
  }

  /** The rest of a run of views after the first view's outcome. */
  function ContinueViews(first: Result<PageView, CounterError>, articleId: int, n: nat): Result<Views, CounterError>
    decreases n + 1, 0
  {
    match first
    case Failure(e) => Failure(e)
    case Success(step) =>
      match RecordViews(step.counters, articleId, n)
      case Failure(e) => Failure(e)
      case Success(rest) => Success(Views(rest.counters, Emitted(step.celebration) + rest.celebrations))
  }

  /** The elements of xs in the half-open range (lo, hi], in order. */
  function MilestonesIn(xs: seq<int>, lo: int, hi: int): (ms: seq<int>)
    ensures |ms| <= |xs|
  {
    if xs == [] then []
    else (if lo < xs[0] <= hi then [xs[0]] else []) + MilestonesIn(xs[1..], lo, hi)
  }

  /** The filter keeps exactly the elements of xs inside (lo, hi]. */
  lemma {:induction false} MilestonesInMembers(xs: seq<int>, lo: int, hi: int)
    ensures forall m :: m in MilestonesIn(xs, lo, hi) <==> m in xs && lo < m <= hi
    decreases |xs|
  {
    if xs != [] {
      MilestonesInMembers(xs[1..], lo, hi);
      assert xs == [xs[0]] + xs[1..];
    }
  }

  lemma MilestonesInEmpty(xs: seq<int>, lo: int, hi: int)
    requires hi <= lo
    ensures MilestonesIn(xs, lo, hi) == []
  {
  }

  function CelebrationsOf(articleId: int, ms: seq<int>): (cs: seq<Celebration>)
    ensures |cs| == |ms|
    ensures forall i :: 0 <= i < |ms| ==> cs[i] == Celebration(articleId, ms[i])
  {
    seq(|ms|, i requires 0 <= i < |ms| => Celebration(articleId, ms[i]))
  }

  function ViewsOf(cs: seq<Celebration>): seq<int> {
    seq(|cs|, i requires 0 <= i < |cs| => cs[i].views)
  }

  predicate StrictlyIncreasing(xs: seq<int>) {
    forall i, j :: 0 <= i < j < |xs| ==> xs[i] < xs[j]
  }

  lemma MilestonesAscending()
    ensures StrictlyIncreasing(Milestones)
  {
  }

  /** Filtering keeps a strictly increasing sequence strictly increasing. */
  lemma {:induction false} MilestonesInIncreasing(xs: seq<int>, lo: int, hi: int)
    requires StrictlyIncreasing(xs)
    ensures StrictlyIncreasing(MilestonesIn(xs, lo, hi))
    decreases |xs|
  {
    if xs != [] {
      MilestonesInIncreasing(xs[1..], lo, hi);
      MilestonesInMembers(xs[1..], lo, hi);
      var rest := MilestonesIn(xs[1..], lo, hi);
      forall m | m in rest ensures xs[0] < m {
        var j :| 0 <= j < |xs[1..]| && xs[1..][j] == m;
        assert xs[j + 1] == m;
      }
      if lo < xs[0] <= hi {
        ConsIncreasing(xs[0], rest);
      }
    }
  }

  lemma ConsIncreasing(x: int, rest: seq<int>)
    requires StrictlyIncreasing(rest)
    requires forall m :: m in rest ==> x < m
    ensures StrictlyIncreasing([x] + rest)
  {
    var xs := [x] + rest;
    forall i, j | 0 <= i < j < |xs| ensures xs[i] < xs[j] {
      assert xs[j] == rest[j - 1] && rest[j - 1] in rest;
      if i > 0 {
        assert xs[i] == rest[i - 1];
      }
    }
  }

  /** Advancing the lower bound by one view drops exactly the milestone
      equal to that view, if there is one, from the front. */
  lemma {:induction false} MilestonesInStep(xs: seq<int>, lo: int, hi: int)
    requires StrictlyIncreasing(xs)
    requires lo < hi
    ensures MilestonesIn(xs, lo, hi) == (if lo + 1 in xs then [lo + 1] else []) + MilestonesIn(xs, lo + 1, hi)
    decreases |xs|
  {
    if xs != [] {
      var tail := xs[1..];
      assert xs == [xs[0]] + tail;
      MilestonesInStep(tail, lo, hi);
      forall m | m in tail ensures xs[0] < m {
        var j :| 0 <= j < |tail| && tail[j] == m;
        assert xs[j + 1] == m;
      }
      if xs[0] == lo + 1 {
        assert lo + 1 !in tail;
      } else {
        assert (lo + 1 in xs) == (lo + 1 in tail);
      }
    }
  }

  lemma CelebrationsOfAppend(articleId: int, a: seq<int>, b: seq<int>)
    ensures CelebrationsOf(articleId, a + b) == CelebrationsOf(articleId, a) + CelebrationsOf(articleId, b)
  {
  }

  /** From a count of c, n sequential views succeed and end at c + n. */
  lemma {:induction false} RecordViewsCount(counters: Counters, articleId: int, n: nat)
    requires Current(counters, KeyFor(articleId)) + n <= MaxCounter
    ensures var r := RecordViews(counters, articleId, n);
            r.Success? && Current(r.value.counters, KeyFor(articleId)) == Current(counters, KeyFor(articleId)) + n
    decreases n
  {
    if n > 0 {
      var step := IncrementPageView(counters, articleId).value;
      RecordViewsCount(step.counters, articleId, n - 1);
    }
  }

  /** Views of one article move no other counter. */
  lemma {:induction false} RecordViewsFrame(counters: Counters, articleId: int, n: nat)
    requires Current(counters, KeyFor(articleId)) + n <= MaxCounter
    ensures var r := RecordViews(counters, articleId, n);
            && r.Success?
            && forall k :: k != KeyFor(articleId) ==> Get(r.value.counters, k) == Get(counters, k)
    decreases n
  {
    if n > 0 {
      var step := IncrementPageView(counters, articleId).value;
      RecordViewsFrame(step.counters, articleId, n - 1);
    }
  }

  /** Views that do not overflow keep every counter in the 64-bit range. */
  lemma {:induction false} RecordViewsValid(counters: Counters, articleId: int, n: nat)
    requires Valid(counters)
    requires Current(counters, KeyFor(articleId)) + n <= MaxCounter
    ensures RecordViews(counters, articleId, n).Success?
    ensures Valid(RecordViews(counters, articleId, n).value.counters)
    decreases n
  {
    if n > 0 {
      var step := IncrementPageView(counters, articleId).value;
      RecordViewsValid(step.counters, articleId, n - 1);
    }
  }

  /** One view of a counter below the limit: the count goes up by one and
      the celebration sent is the one for c + 1 if that is a milestone. */
  lemma ViewStep(counters: Counters, articleId: int)
    requires Current(counters, KeyFor(articleId)) < MaxCounter
    ensures var c := Current(counters, KeyFor(articleId));
            var r := IncrementPageView(counters, articleId);
            && r.Success?
            && Current(r.value.counters, KeyFor(articleId)) == c + 1
            && Emitted(r.value.celebration) == CelebrationsOf(articleId, if c + 1 in Milestones then [c + 1] else [])
  {
  }

  /** One unfolding of RecordViews after a successful first view. */
  lemma RecordViewsStep(counters: Counters, articleId: int, n: nat)
    requires n > 0
    requires IncrementPageView(counters, articleId).Success?
    ensures var step := IncrementPageView(counters, articleId).value;
            var rest := RecordViews(step.counters, articleId, n - 1);
            RecordViews(counters, articleId, n)
              == if rest.Success? then Success(Views(rest.value.counters, Emitted(step.celebration) + rest.value.celebrations))
                 else Failure(rest.error)
  {
  }

  /** The celebrations of one view from c followed by those of the
      milestones in (c + 1, c + n] are those of the milestones in (c, c + n]. */
  lemma CelebrationsStep(articleId: int, c: int, n: nat, first: seq<Celebration>, rest: seq<Celebration>)
    requires n > 0
    requires first == CelebrationsOf(articleId, if c + 1 in Milestones then [c + 1] else [])
    requires rest == CelebrationsOf(articleId, MilestonesIn(Milestones, c + 1, c + n))
    ensures first + rest == CelebrationsOf(articleId, MilestonesIn(Milestones, c, c + n))
  {
    MilestonesAscending();
    MilestonesInStep(Milestones, c, c + n);
    CelebrationsOfAppend(articleId, if c + 1 in Milestones then [c + 1] else [], MilestonesIn(Milestones, c + 1, c + n));
  }

  /** From a count of c, n sequential views celebrate exactly the
      milestones in (c, c + n], ascending. */
  lemma {:induction false} RecordViewsCelebrations(counters: Counters, articleId: int, n: nat)
    requires Current(counters, KeyFor(articleId)) + n <= MaxCounter
    ensures var c := Current(counters, KeyFor(articleId));
            var r := RecordViews(counters, articleId, n);
            && r.Success?
            && r.value.celebrations == CelebrationsOf(articleId, MilestonesIn(Milestones, c, c + n))
    decreases n
  {
    var c := Current(counters, KeyFor(articleId));
    if n == 0 {
      MilestonesInEmpty(Milestones, c, c);
    } else {
      ViewStep(counters, articleId);
      var step := IncrementPageView(counters, articleId).value;
      RecordViewsCelebrations(step.counters, articleId, n - 1);
      var rest := RecordViews(step.counters, articleId, n - 1).value;
      assert Current(step.counters, KeyFor(articleId)) + (n - 1) == c + n;
      RecordViewsStep(counters, articleId, n);
      CelebrationsStep(articleId, c, n, Emitted(step.celebration), rest.celebrations);
    }
  }

  lemma ViewsOfCelebrations(articleId: int, ms: seq<int>)
    ensures ViewsOf(CelebrationsOf(articleId, ms)) == ms
  {
  }

  /** The view counts celebrated by n sequential views from c. */
  lemma RecordViewsViews(counters: Counters, articleId: int, n: nat)
    requires Current(counters, KeyFor(articleId)) + n <= MaxCounter
    ensures var c := Current(counters, KeyFor(articleId));
            var r := RecordViews(counters, articleId, n);
            && r.Success?
            && ViewsOf(r.value.celebrations) == MilestonesIn(Milestones, c, c + n)
  {
    var c := Current(counters, KeyFor(articleId));
    RecordViewsCelebrations(counters, articleId, n);
    ViewsOfCelebrations(articleId, MilestonesIn(Milestones, c, c + n));
  }

  /** Everything together: from a count of c, n sequential views end at
      c + n, celebrate exactly the milestones in (c, c + n] in ascending
      order, keep the counters valid and move no other counter. */
  lemma RecordViewsFrom(counters: Counters, articleId: int, n: nat)
    requires Valid(counters)
    requires Current(counters, KeyFor(articleId)) + n <= MaxCounter
    ensures var c := Current(counters, KeyFor(articleId));
            var r := RecordViews(counters, articleId, n);
            && r.Success?
            && Valid(r.value.counters)
            && Current(r.value.counters, KeyFor(articleId)) == c + n
            && (forall k :: k != KeyFor(articleId) ==> Get(r.value.counters, k) == Get(counters, k))
            && r.value.celebrations == CelebrationsOf(articleId, MilestonesIn(Milestones, c, c + n))
  {
    RecordViewsCount(counters, articleId, n);
    RecordViewsFrame(counters, articleId, n);
    RecordViewsValid(counters, articleId, n);
    RecordViewsCelebrations(counters, articleId, n);
  }

  /** A fresh article's first n views count to n and celebrate every
      milestone up to n exactly once, in ascending order. */
  lemma FirstViews(counters: Counters, articleId: int, n: nat)
    requires KeyFor(articleId) !in counters
    requires n <= MaxCounter
    ensures var r := RecordViews(counters, articleId, n);
            && r.Success?
            && Current(r.value.counters, KeyFor(articleId)) == n
            && (forall i :: 0 <= i < |r.value.celebrations| ==> r.value.celebrations[i].articleId == articleId)
            && (forall m :: m in ViewsOf(r.value.celebrations) <==> IsMilestone(m) && m <= n)
            && StrictlyIncreasing(ViewsOf(r.value.celebrations))
  {
    RecordViewsCount(counters, articleId, n);
    RecordViewsCelebrations(counters, articleId, n);
    RecordViewsViews(counters, articleId, n);
    MilestonesInMembers(Milestones, 0, n);
    MilestonesAscending();
    MilestonesInIncreasing(Milestones, 0, n);
  }

  /** Views that start where an earlier run of views ended, or later, never
      celebrate a milestone that run celebrated; in particular a second run
      on the counters the first run left behind. */
  lemma MilestoneNeverRepeats(before: Counters, after: Counters, articleId: int, n: nat, m: nat)
    requires Current(before, KeyFor(articleId)) + n <= Current(after, KeyFor(articleId))
    requires Current(after, KeyFor(articleId)) + m <= MaxCounter
    ensures var first := RecordViews(before, articleId, n);
            var later := RecordViews(after, articleId, m);
            && first.Success? && later.Success?
            && forall v :: v in ViewsOf(first.value.celebrations) ==> v !in ViewsOf(later.value.celebrations)
  {
    var c := Current(before, KeyFor(articleId));
    var d := Current(after, KeyFor(articleId));
    RecordViewsViews(before, articleId, n);
    RecordViewsViews(after, articleId, m);
    DisjointRanges(ViewsOf(RecordViews(before, articleId, n).value.celebrations),
                   ViewsOf(RecordViews(after, articleId, m).value.celebrations), c, c + n, d, d + m);
  }

  /** Milestones in (lo, mid] and in (lo2, hi] are disjoint when mid <= lo2. */
  lemma DisjointRanges(early: seq<int>, late: seq<int>, lo: int, mid: int, lo2: int, hi: int)
    requires early == MilestonesIn(Milestones, lo, mid)
    requires late == MilestonesIn(Milestones, lo2, hi)
    requires mid <= lo2
    ensures forall v :: v in early ==> v !in late
  {
    MilestonesInMembers(Milestones, lo, mid);
    MilestonesInMembers(Milestones, lo2, hi);
  }

  /** Nothing is kept when every element lies above the range. */
  lemma {:induction false} MilestonesInAbove(xs: seq<int>, lo: int, hi: int)
    requires forall i :: 0 <= i < |xs| ==> hi < xs[i]
    ensures MilestonesIn(xs, lo, hi) == []
    decreases |xs|
  {
    if xs != [] {
      MilestonesInAbove(xs[1..], lo, hi);
    }
  }

  lemma MilestonesBelowTen(n: int)
    requires n < 10
    ensures MilestonesIn(Milestones, 0, n) == []
  {
    MilestonesInAbove(Milestones, 0, n);
  }

  lemma MilestonesTenToFifty(n: int)
    requires 10 <= n < 50
    ensures MilestonesIn(Milestones, 0, n) == [10]
  {
    MilestonesInAbove(Milestones[1..], 0, n);
  }

  /** Fewer than ten views from scratch celebrate nothing. */
  lemma FewViewsSilent(counters: Counters, articleId: int, n: nat)
    requires KeyFor(articleId) !in counters
    requires n < 10
    ensures RecordViews(counters, articleId, n).Success?
    ensures RecordViews(counters, articleId, n).value.celebrations == []
  {
    RecordViewsCelebrations(counters, articleId, n);
    MilestonesBelowTen(n);
  }

  /** From the tenth view up to the forty-ninth, a fresh article has
      celebrated 10 and nothing else. */
  lemma TenthViewCelebrates(counters: Counters, articleId: int, n: nat)
    requires KeyFor(articleId) !in counters
    requires 10 <= n < 50
    ensures RecordViews(counters, articleId, n).Success?
    ensures RecordViews(counters, articleId, n).value.celebrations == [Celebration(articleId, 10)]
  {
    RecordViewsCelebrations(counters, articleId, n);
    MilestonesTenToFifty(n);
    assert CelebrationsOf(articleId, [10]) == [Celebration(articleId, 10)];
  }

  /** A counter at 99 taking two views passes through 100 and celebrates it
      exactly once. */
  lemma HundredCelebratedOnce(counters: Counters, articleId: int)
    ensures RecordViews(counters[KeyFor(articleId) := 99], articleId, 2).Success?
    ensures RecordViews(counters[KeyFor(articleId) := 99], articleId, 2).value.celebrations
            == [Celebration(articleId, 100)]
  {
    RecordViewsCelebrations(counters[KeyFor(articleId) := 99], articleId, 2);
    assert MilestonesIn(Milestones, 99, 101) == [100];
  }

  /** Membership, not a threshold: a view that takes a counter from 50 to 51
      celebrates nothing. */
  lemma PastMilestoneIsSilent(counters: Counters, articleId: int)
    ensures var r := IncrementPageView(counters[KeyFor(articleId) := 50], articleId);
            r.Success? && r.value.views == 51 && r.value.celebration == None
  {
  }
}
