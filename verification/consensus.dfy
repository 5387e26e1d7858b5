/**
 * Consensus recovery: the part of recoverSecretFromFile that runs once the
 * shares have been decoded into points.
 *
 * With n points (at least two), the search tries subset sizes from min(k, n)
 * up to n. At each size it interpolates every subset, skips the subsets whose
 * interpolation throws, and counts the secrets in an insertion-ordered Map.
 * It stops after the first size that produced any secret, and returns the
 * secret with the highest count; on a tie the entry inserted first wins.
 */
module Consensus {
  import opened Outcomes
  import L = Lagrange
  import C = Combinations
  import D = ShareDecoding
  import S = Sequences

  // ---------------------------------------------------------------------------
  // The tally: an insertion-ordered map from secrets to counts

  /** One entry of secretsMap: a secret and the number of subsets that produced it. */
  datatype Entry = Entry(secret: int, count: nat)

  /** secretsMap.set(s, (secretsMap.get(s) || 0) + 1): an existing key keeps its place, a new one goes last. */
  function Bump(tally: seq<Entry>, s: int): seq<Entry>
  {
    if tally == [] then [Entry(s, 1)]
    else if tally[0].secret == s then [Entry(s, tally[0].count + 1)] + tally[1..]
    else [tally[0]] + Bump(tally[1..], s)
  }

  /** The tally after the secrets xs have been counted in order, starting from an empty Map. */
  function Tally(xs: seq<int>): seq<Entry>
  {
    if xs == [] then [] else Bump(Tally(xs[..|xs| - 1]), xs[|xs| - 1])
  }

  /** The keys of the tally, in insertion order. */
  function Keys(tally: seq<Entry>): (r: seq<int>)
    ensures |r| == |tally|
  {
    if tally == [] then [] else [tally[0].secret] + Keys(tally[1..])
  }

  /** secretsMap.get(s) || 0. */
  function CountOf(tally: seq<Entry>, s: int): nat
  {
    if tally == [] then 0
    else if tally[0].secret == s then tally[0].count
    else CountOf(tally[1..], s)
  }

  // A reference description of the tally: occurrence counts and first occurrences

  function Occurrences(xs: seq<int>, v: int): nat
  {
    if xs == [] then 0 else Occurrences(xs[..|xs| - 1], v) + (if xs[|xs| - 1] == v then 1 else 0)
  }

  /** The distinct values of xs in the order of their first occurrence. */
  function Dedup(xs: seq<int>): seq<int>
  {
    if xs == [] then []
    else
      var init := xs[..|xs| - 1];
      Dedup(init) + (if xs[|xs| - 1] in init then [] else [xs[|xs| - 1]])
  }

  predicate Distinct(xs: seq<int>)
  {
    forall p, q :: 0 <= p < q < |xs| ==> xs[p] != xs[q]
  }

  // ---------------------------------------------------------------------------
  // The search over subset sizes

  /**
   * The secrets of the subsets whose interpolation succeeds, in the order they
   * are tried. The interpolation is a parameter so that facts about the
   * counting do not depend on how a secret is computed; the search passes
   * Lagrange's Interpolation.
   */
  function Successes(subsets: seq<seq<L.Point>>, interpolate: seq<L.Point> -> Result<int>): seq<int>
  {
    if subsets == [] then []
    else
      var last := interpolate(subsets[|subsets| - 1]);
      Successes(subsets[..|subsets| - 1], interpolate) + (if last.Ok? then [last.value] else [])
  }

  /** The tally built from all subsets of the given size. */
  function TallyAt(points: seq<L.Point>, size: int): seq<Entry>
  {
    Tally(Successes(C.Combos(points, size), L.Interpolation))
  }

  /** The tallies of all subset sizes, as one function of the size. */
  function Tallies(points: seq<L.Point>): int -> seq<Entry>
  {
    size => TallyAt(points, size)
  }

  /** The first size from size up to total whose tally is not empty, if any. */
  function Search(tallies: int -> seq<Entry>, size: int, total: int): (r: Option<int>)
    ensures r.Some? ==> size <= r.value <= total && tallies(r.value) != []
    decreases total - size
  {
    if size > total then None
    else if tallies(size) != [] then Some(size)
    else Search(tallies, size + 1, total)
  }

  /** Math.min(k, totalPoints). */
  function MinK(k: int, total: nat): int
  {
    if k < total then k else total
  }

  /** The entry the reduce keeps: a when a's count is at least b's, so an earlier entry wins a tie. */
  function MostFrequent(tally: seq<Entry>): (w: Entry)
    requires tally != []
    ensures w in tally
    ensures forall e :: e in tally ==> e.count <= w.count
  {
    if |tally| == 1 then tally[0]
    else
      var a := MostFrequent(tally[..|tally| - 1]);
      var b := tally[|tally| - 1];
      assert forall e :: e in tally ==> e in tally[..|tally| - 1] || e == b;
      if a.count >= b.count then a else b
  }

  /** The outcome of the search from size start up to total: the winner of the first non-empty tally. */
  function Outcome(tallies: int -> seq<Entry>, start: int, total: int): Result<int>
  {
    match Search(tallies, start, total)
    case None => Err(NoValidCombination)
    case Some(size) => Ok(MostFrequent(tallies(size)).secret)
  }

  /** What the consensus part of recoverSecretFromFile returns for these points and k. */
  function RecoverSpec(points: seq<L.Point>, k: int): Result<int>
  {
    if |points| < 2 then Err(NotEnoughPoints)
    else Outcome(Tallies(points), MinK(k, |points|), |points|)
  }

  /** The consensus part of recoverSecretFromFile, over already decoded points. */
  method Recover(points: seq<L.Point>, k: int) returns (r: Result<int>)
    ensures r == RecoverSpec(points, k)
  {
    var totalPoints := |points|;
    if totalPoints < 2 {
      return Err(NotEnoughPoints);
    }
    var size, secrets := SearchSizes(points, MinK(k, totalPoints));
    if |secrets| == 0 {
      return Err(NoValidCombination);
    }
    r := Ok(MostFrequent(secrets).secret);
  }

  /**
   * The loop over subset sizes with its early break: the first size from
   * start up to |points| whose tally is not empty, and that tally; an empty
   * tally when every size gave nothing.
   */
  method SearchSizes(points: seq<L.Point>, start: int) returns (size: int, secrets: seq<Entry>)
    ensures Search(Tallies(points), start, |points|) == if secrets == [] then None else Some(size)
    ensures secrets != [] ==> secrets == Tallies(points)(size)
  {
    secrets := [];
    size := start;
    while size <= |points|
      invariant start <= size
      invariant secrets == []
      invariant Search(Tallies(points), start, |points|) == Search(Tallies(points), size, |points|)
      decreases |points| - size
    {
      secrets := TallySize(points, size);
      SearchStep(Tallies(points), size, |points|);
      if |secrets| > 0 {
        return;
      }
      size := size + 1;
    }
  }

  /** One step of the search: a size with a non-empty tally ends it, an empty one moves on to the next size. */
  lemma SearchStep(tallies: int -> seq<Entry>, size: int, total: int)
    requires size <= total
    ensures Search(tallies, size, total) == if tallies(size) != [] then Some(size) else Search(tallies, size + 1, total)
  {
  }

  /**
   * The inner loop of the search: generate the subsets of one size,
   * interpolate each in turn and count the secrets of those that succeed.
   */
  method TallySize(points: seq<L.Point>, size: int) returns (secrets: seq<Entry>)
    ensures secrets == TallyAt(points, size)
  {
    var combinations := C.GetCombinations(points, size);
    secrets := [];
    for j := 0 to |combinations|
      invariant secrets == Tally(Successes(combinations[..j], L.Interpolation))
    {
      var secret := L.InterpolateAtZero(combinations[j]);
      TallyStep(combinations, j, L.Interpolation);
      if secret.Ok? {
        secrets := Bump(secrets, secret.value);
      }
    }
    assert combinations[..|combinations|] == combinations;
  }

  /** Trying one more subset bumps the tally by its secret, or leaves the tally alone when it throws. */
  lemma TallyStep(subsets: seq<seq<L.Point>>, j: nat, interpolate: seq<L.Point> -> Result<int>)
    requires j < |subsets|
    ensures var r := interpolate(subsets[j]);
            var before := Tally(Successes(subsets[..j], interpolate));
            Tally(Successes(subsets[..j + 1], interpolate)) == if r.Ok? then Bump(before, r.value) else before
  {
    var r := interpolate(subsets[j]);
    var xs := Successes(subsets[..j], interpolate);
    assert subsets[..j + 1][..j] == subsets[..j];
    assert Successes(subsets[..j + 1], interpolate) == xs + (if r.Ok? then [r.value] else []);
    if r.Ok? {
      assert (xs + [r.value])[..|xs|] == xs;
    } else {
      assert xs + [] == xs;
    }
  }

  // ---------------------------------------------------------------------------
  // The tally counts every secret and keeps the order of first appearance

  lemma {:induction false} BumpCount(tally: seq<Entry>, s: int, v: int)
    ensures CountOf(Bump(tally, s), v) == CountOf(tally, v) + (if v == s then 1 else 0)
  {
    if tally != [] && tally[0].secret != s {
      BumpCount(tally[1..], s, v);
      assert Bump(tally, s)[1..] == Bump(tally[1..], s);
    }
  }

  lemma {:induction false} BumpKeys(tally: seq<Entry>, s: int)
    ensures Keys(Bump(tally, s)) == if s in Keys(tally) then Keys(tally) else Keys(tally) + [s]
  {
    if tally != [] {
      if tally[0].secret == s {
        assert Bump(tally, s)[1..] == tally[1..];
      } else {
        BumpKeys(tally[1..], s);
        assert Bump(tally, s)[1..] == Bump(tally[1..], s);
        assert Keys(tally) == [tally[0].secret] + Keys(tally[1..]);
      }
    }
  }

  lemma {:induction false} DedupMembers(xs: seq<int>)
    ensures forall v :: v in Dedup(xs) <==> v in xs
    ensures Distinct(Dedup(xs))
  {
    if xs != [] {
      var init := xs[..|xs| - 1];
      DedupMembers(init);
      assert xs == init + [xs[|xs| - 1]];
    }
  }

  /** The tally counts each secret as often as it occurs, and lists the secrets in order of first occurrence. */
  lemma {:induction false} TallyCounts(xs: seq<int>)
    ensures forall v :: CountOf(Tally(xs), v) == Occurrences(xs, v)
    ensures Keys(Tally(xs)) == Dedup(xs)
  {
    if xs != [] {
      var init := xs[..|xs| - 1];
      var last := xs[|xs| - 1];
      TallyCounts(init);
      forall v
        ensures CountOf(Tally(xs), v) == Occurrences(xs, v)
      {
        BumpCount(Tally(init), last, v);
      }
      BumpKeys(Tally(init), last);
      DedupMembers(init);
    }
  }

  lemma {:induction false} KeysIndex(tally: seq<Entry>, p: nat)
    requires p < |tally|
    ensures Keys(tally)[p] == tally[p].secret
  {
    if p > 0 {
      KeysIndex(tally[1..], p - 1);
    }
  }

  /** With distinct keys, CountOf reads the count stored for the key, and 0 for an absent key. */
  lemma {:induction false} CountOfEntry(tally: seq<Entry>, v: int)
    requires Distinct(Keys(tally))
    ensures v !in Keys(tally) ==> CountOf(tally, v) == 0
    ensures forall p :: 0 <= p < |tally| && tally[p].secret == v ==> CountOf(tally, v) == tally[p].count
  {
    if tally != [] {
      var rest := tally[1..];
      assert Keys(tally) == [tally[0].secret] + Keys(rest);
      assert Distinct(Keys(rest)) by {
        forall p, q | 0 <= p < q < |Keys(rest)|
          ensures Keys(rest)[p] != Keys(rest)[q]
        {
          assert Keys(rest)[p] == Keys(tally)[p + 1] && Keys(rest)[q] == Keys(tally)[q + 1];
        }
      }
      CountOfEntry(rest, v);
      forall p | 0 <= p < |tally| && tally[p].secret == v
        ensures CountOf(tally, v) == tally[p].count
      {
        KeysIndex(tally, p);
        KeysIndex(tally, 0);
        if p > 0 {
          assert rest[p - 1] == tally[p];
        }
      }
    }
  }

  lemma {:induction false} OccurrencesPositive(xs: seq<int>, v: int)
    ensures v in xs <==> Occurrences(xs, v) > 0
  {
    if xs != [] {
      var init := xs[..|xs| - 1];
      OccurrencesPositive(init, v);
      assert xs == init + [xs[|xs| - 1]];
    }
  }

  /** Dedup lists the values in the order of their first occurrence. */
  lemma {:induction false} DedupOrder(xs: seq<int>, p: nat, q: nat)
    requires p < q < |Dedup(xs)|
    ensures Dedup(xs)[p] in xs && Dedup(xs)[q] in xs
    ensures S.FirstIndex(xs, Dedup(xs)[p]) < S.FirstIndex(xs, Dedup(xs)[q])
  {
    var init := xs[..|xs| - 1];
    var last := xs[|xs| - 1];
    assert xs == init + [last];
    DedupMembers(xs);
    DedupMembers(init);
    var a, b := Dedup(xs)[p], Dedup(xs)[q];
    assert a in init by {
      assert Dedup(xs)[p] == Dedup(init)[p];
    }
    S.FirstIndexPrefix(init, [last], a);
    if q < |Dedup(init)| {
      DedupOrder(init, p, q);
      S.FirstIndexPrefix(init, [last], b);
    } else {
      assert b == last && last !in init;
      assert S.FirstIndex(xs, b) == |init|;
    }
  }

  /** The reduce keeps the first entry with the highest count. */
  lemma {:induction false} MostFrequentIsFirstMax(tally: seq<Entry>)
    requires tally != []
    ensures exists p :: 0 <= p < |tally| && tally[p] == MostFrequent(tally) &&
              forall q :: 0 <= q < p ==> tally[q].count < MostFrequent(tally).count
  {
    var w := MostFrequent(tally);
    if |tally| == 1 {
      assert tally[0] == w;
    } else {
      var init := tally[..|tally| - 1];
      var a := MostFrequent(init);
      var b := tally[|tally| - 1];
      MostFrequentIsFirstMax(init);
      var p :| 0 <= p < |init| && init[p] == a && forall q :: 0 <= q < p ==> init[q].count < a.count;
      if a.count >= b.count {
        assert w == a;
        forall q | 0 <= q < p
          ensures tally[q].count < w.count
        {
          assert tally[q] == init[q];
        }
        assert tally[p] == w;
      } else {
        assert w == b;
        var last := |tally| - 1;
        forall q | 0 <= q < last
          ensures tally[q].count < w.count
        {
          assert tally[q] == init[q] && init[q] in init;
        }
        assert tally[last] == w;
      }
    }
  }

  // ---------------------------------------------------------------------------
  // What the recovery returns

  /** The search stops at the first size with a non-empty tally, and fails only when every size is empty. */
  lemma {:induction false} SearchFirst(tallies: int -> seq<Entry>, size: int, total: int)
    ensures Search(tallies, size, total).Some? ==>
              var z := Search(tallies, size, total).value;
              size <= z <= total && tallies(z) != [] &&
              forall s :: size <= s < z ==> tallies(s) == []
    ensures Search(tallies, size, total).None? ==> forall s :: size <= s <= total ==> tallies(s) == []
    decreases total - size
  {
    if size <= total && tallies(size) == [] {
      SearchFirst(tallies, size + 1, total);
    }
  }

  /** Sizes whose tallies are all empty are passed over. */
  lemma {:induction false} SearchSkip(tallies: int -> seq<Entry>, size: int, stop: int, total: int)
    requires size <= stop <= total + 1
    requires forall s :: size <= s < stop ==> tallies(s) == []
    ensures Search(tallies, size, total) == Search(tallies, stop, total)
    decreases stop - size
  {
    if size < stop {
      SearchSkip(tallies, size + 1, stop, total);
    }
  }

  /**
   * The reduce over the tally of xs returns a secret that occurs in xs as
   * often as any other; a secret that occurs as often is returned only if it
   * occurs first.
   */
  lemma MostFrequentWinner(xs: seq<int>)
    requires Tally(xs) != []
    ensures var w := MostFrequent(Tally(xs)).secret;
            w in xs &&
            (forall v :: Occurrences(xs, v) <= Occurrences(xs, w)) &&
            (forall v :: v in xs && v != w && Occurrences(xs, v) == Occurrences(xs, w) ==>
               S.FirstIndex(xs, w) < S.FirstIndex(xs, v))
  {
    var tally := Tally(xs);
    TallyCounts(xs);
    DedupMembers(xs);
    MostFrequentIsFirstMax(tally);
    var e := MostFrequent(tally);
    var w := e.secret;
    var p :| 0 <= p < |tally| && tally[p] == e && forall q :: 0 <= q < p ==> tally[q].count < e.count;
    KeysIndex(tally, p);
    CountOfEntry(tally, w);
    assert Occurrences(xs, w) == e.count;
    assert w in xs;
    forall v
      ensures Occurrences(xs, v) <= Occurrences(xs, w)
    {
      CountOfEntry(tally, v);
      if v in Keys(tally) {
        var q :| 0 <= q < |tally| && Keys(tally)[q] == v;
        KeysIndex(tally, q);
        assert tally[q] in tally;
      }
    }
    forall v | v in xs && v != w && Occurrences(xs, v) == Occurrences(xs, w)
      ensures S.FirstIndex(xs, w) < S.FirstIndex(xs, v)
    {
      var q :| 0 <= q < |tally| && Keys(tally)[q] == v;
      KeysIndex(tally, q);
      CountOfEntry(tally, v);
      assert tally[q].count == e.count;
      assert q != p;
      DedupOrder(xs, p, q);
    }
  }

  /**
   * The recovered secret is produced by the most subsets of the size the
   * search stopped at; a secret produced by as many subsets is returned only
   * if it was produced first.
   */
  lemma RecoverWinner(points: seq<L.Point>, k: int)
    requires RecoverSpec(points, k).Ok?
    ensures |points| >= 2 && Search(Tallies(points), MinK(k, |points|), |points|).Some?
    ensures var xs := Successes(C.Combos(points, Search(Tallies(points), MinK(k, |points|), |points|).value), L.Interpolation);
            var w := RecoverSpec(points, k).value;
            w in xs &&
            (forall v :: Occurrences(xs, v) <= Occurrences(xs, w)) &&
            (forall v :: v in xs && v != w && Occurrences(xs, v) == Occurrences(xs, w) ==>
               S.FirstIndex(xs, w) < S.FirstIndex(xs, v))
  {
    var size := Search(Tallies(points), MinK(k, |points|), |points|).value;
    var xs := Successes(C.Combos(points, size), L.Interpolation);
    assert RecoverSpec(points, k).value == MostFrequent(Tally(xs)).secret;
    MostFrequentWinner(xs);
  }

  /** Before size 0 there is no subset, so a negative start reaches size 0 with nothing counted. */
  lemma SearchBelowZero(points: seq<L.Point>, size: int)
    requires size <= 0
    ensures Search(Tallies(points), size, |points|) == Search(Tallies(points), 0, |points|)
  {
    forall s | size <= s < 0
      ensures Tallies(points)(s) == []
    {
      C.CombosCount(points, s);
    }
    SearchSkip(Tallies(points), size, 0, |points|);
  }

  /** Points picked at strictly increasing indices of points with distinct labels have distinct labels. */
  lemma PickDistinctX(points: seq<L.Point>, t: seq<nat>)
    requires !L.HasDuplicateX(points)
    requires C.Increasing(t) && C.InRange(t, 0, |points|)
    ensures !L.HasDuplicateX(C.Pick(points, t))
  {
    C.PickIndex(points, t);
  }

  lemma {:induction false} SuccessesNonEmpty(subsets: seq<seq<L.Point>>, p: nat, interpolate: seq<L.Point> -> Result<int>)
    requires p < |subsets| && interpolate(subsets[p]).Ok?
    ensures Successes(subsets, interpolate) != []
  {
    if p < |subsets| - 1 {
      SuccessesNonEmpty(subsets[..|subsets| - 1], p, interpolate);
    }
  }

  /** With distinct labels, the first subset of any size from 0 to |points| interpolates, so the tally is not empty. */
  lemma TallyAtDistinctX(points: seq<L.Point>, z: int)
    requires !L.HasDuplicateX(points) && 0 <= z <= |points|
    ensures TallyAt(points, z) != []
  {
    C.CombosCount(points, z);
    C.CombosShape(points, z);
    var combos := C.Combos(points, z);
    var t := C.Tuples(0, |points|, z)[0];
    PickDistinctX(points, t);
    L.InterpolationFailsIffDuplicateX(combos[0]);
    SuccessesNonEmpty(combos, 0, L.Interpolation);
  }

  /**
   * With distinct labels every subset interpolates, so the search stops at
   * the first size it tries (size 0 when k is negative) and a secret is returned.
   */
  lemma RecoverDistinctX(points: seq<L.Point>, k: int)
    requires |points| >= 2 && !L.HasDuplicateX(points)
    ensures var m := MinK(k, |points|);
            Search(Tallies(points), m, |points|) == Some(if m < 0 then 0 else m)
    ensures RecoverSpec(points, k).Ok?
  {
    var m := MinK(k, |points|);
    var z := if m < 0 then 0 else m;
    if m < 0 {
      SearchBelowZero(points, m);
    }
    TallyAtDistinctX(points, z);
    assert Tallies(points)(z) != [];
  }

  // ---------------------------------------------------------------------------
  // From shares to the recovered secret

  /** A share as read from the file: its label, already a number, and the value and base texts. */
  datatype Share = Share(x: int, value: string, base: string)

  /** The callback of the map: the share's value text decoded in its base. */
  function DecodeShare(share: Share): Result<int>
  {
    D.DecodeShareValue(share.value, share.base)
  }

  /** The map over the shares: each share is decoded in turn and the first failure aborts. */
  function DecodeAll(shares: seq<Share>, decode: Share -> Result<int>): Result<seq<L.Point>>
  {
    if shares == [] then Ok([])
    else
      match decode(shares[0])
      case Err(e) => Err(e)
      case Ok(y) =>
        match DecodeAll(shares[1..], decode)
        case Err(e) => Err(e)
        case Ok(rest) => Ok([L.Point(shares[0].x, y)] + rest)
  }

  function DecodeShares(shares: seq<Share>): Result<seq<L.Point>>
  {
    DecodeAll(shares, DecodeShare)
  }

  /** Decoding succeeds exactly when every share decodes. */
  lemma {:induction false} DecodeAllSucceeds(shares: seq<Share>, decode: Share -> Result<int>)
    ensures DecodeAll(shares, decode).Ok? <==> forall i :: 0 <= i < |shares| ==> decode(shares[i]).Ok?
  {
    if shares != [] {
      var rest := shares[1..];
      DecodeAllSucceeds(rest, decode);
      assert forall i :: 1 <= i < |shares| ==> shares[i] == rest[i - 1];
    }
  }

  /** A successful decoding gives one point per share, in order, labelled by the share and valued by its decoding. */
  lemma {:induction false} DecodeAllPoints(shares: seq<Share>, decode: Share -> Result<int>)
    requires DecodeAll(shares, decode).Ok?
    ensures |DecodeAll(shares, decode).value| == |shares|
    ensures forall i :: 0 <= i < |shares| ==>
              decode(shares[i]).Ok? && DecodeAll(shares, decode).value[i] == L.Point(shares[i].x, decode(shares[i]).value)
  {
    if shares != [] {
      var rest := shares[1..];
      var tail := DecodeAll(rest, decode).value;
      DecodeAllPoints(rest, decode);
      assert DecodeAll(shares, decode).value == [L.Point(shares[0].x, decode(shares[0]).value)] + tail;
      forall i | 1 <= i < |shares|
        ensures decode(shares[i]).Ok? && DecodeAll(shares, decode).value[i] == L.Point(shares[i].x, decode(shares[i]).value)
      {
        assert shares[i] == rest[i - 1];
        assert DecodeAll(shares, decode).value[i] == tail[i - 1];
      }
    }
  }

  /** A failed decoding carries the error of the first share that does not decode. */
  lemma {:induction false} DecodeAllFirstError(shares: seq<Share>, decode: Share -> Result<int>)
    requires DecodeAll(shares, decode).Err?
    ensures exists i :: 0 <= i < |shares| && decode(shares[i]) == Err(DecodeAll(shares, decode).error) &&
              forall j :: 0 <= j < i ==> decode(shares[j]).Ok?
  {
    var e := DecodeAll(shares, decode).error;
    var rest := shares[1..];
    if decode(shares[0]).Err? {
      assert decode(shares[0]) == Err(e);
    } else {
      DecodeAllFirstError(rest, decode);
      var i :| 0 <= i < |rest| && decode(rest[i]) == Err(e) && forall j :: 0 <= j < i ==> decode(rest[j]).Ok?;
      assert shares[i + 1] == rest[i];
      forall j | 0 <= j < i + 1
        ensures decode(shares[j]).Ok?
      {
        if j > 0 {
          assert shares[j] == rest[j - 1];
        }
      }
    }
  }

  /** The whole recovery over decoded shares: decode every share, then run the consensus search. */
  method RecoverSecret(shares: seq<Share>, k: int) returns (r: Result<int>)
    ensures r == match DecodeShares(shares)
                 case Err(e) => Err(e)
                 case Ok(points) => RecoverSpec(points, k)
  {
    var decoded := DecodeShares(shares);
    if decoded.Err? {
      return Err(decoded.error);
    }
    r := Recover(decoded.value, k);
  }

  // ---------------------------------------------------------------------------
  // Worked example: three points on the line y = 1292 + 202 x, with k = 2

  lemma TallyAppend(xs: seq<int>, v: int)
    ensures Tally(xs + [v]) == Bump(Tally(xs), v)
  {
    assert (xs + [v])[..|xs|] == xs;
  }

  /** Three subsets that all interpolate give their three secrets, in order. */
  lemma SuccessesOfThree(s1: seq<L.Point>, s2: seq<L.Point>, s3: seq<L.Point>, v1: int, v2: int, v3: int,
                         interpolate: seq<L.Point> -> Result<int>)
    requires interpolate(s1) == Ok(v1) && interpolate(s2) == Ok(v2) && interpolate(s3) == Ok(v3)
    ensures Successes([s1, s2, s3], interpolate) == [v1, v2, v3]
  {
    var one, two, three := [s1], [s1, s2], [s1, s2, s3];
    assert one[..0] == [];
    assert Successes(one, interpolate) == [v1];
    assert two[..1] == one;
    assert Successes(two, interpolate) == [v1, v2];
    assert three[..2] == two;
  }

  lemma ThreePointSuccesses()
    ensures Successes(C.Combos([L.Point(1, 1494), L.Point(2, 1696), L.Point(3, 1898)], 2), L.Interpolation) == [1292, 1494, 1292]
  {
    var p1, p2, p3 := L.Point(1, 1494), L.Point(2, 1696), L.Point(3, 1898);
    C.ThreeChooseTwoExample(p1, p2, p3);
    L.TwoPointExample();
    L.TruncatedPairExample();
    L.ShiftedPairExample();
    SuccessesOfThree([p1, p2], [p1, p3], [p2, p3], 1292, 1494, 1292, L.Interpolation);
  }

  lemma ThreePointTally()
    ensures Tally([1292, 1494, 1292]) == [Entry(1292, 2), Entry(1494, 1)]
  {
    TallyAppend([], 1292);
    assert [] + [1292] == [1292];
    TallyAppend([1292], 1494);
    assert [1292] + [1494] == [1292, 1494];
    TallyAppend([1292, 1494], 1292);
    assert [1292, 1494] + [1292] == [1292, 1494, 1292];
  }

  /** The reduce over the example tally keeps the first entry, whose count is higher. */
  lemma ThreePointWinner()
    ensures MostFrequent([Entry(1292, 2), Entry(1494, 1)]) == Entry(1292, 2)
  {
    var tally := [Entry(1292, 2), Entry(1494, 1)];
    assert tally[..1] == [Entry(1292, 2)];
  }

  /** A search that starts at a size with a non-empty tally returns that tally's winner. */
  lemma OutcomeAt(tallies: int -> seq<Entry>, start: int, total: int)
    requires start <= total && tallies(start) != []
    ensures Outcome(tallies, start, total) == Ok(MostFrequent(tallies(start)).secret)
  {
  }

  /** Two of the three pairs give 1292 and one gives 1494, so 1292 is returned. */
  lemma ThreePointExample()
    ensures TallyAt([L.Point(1, 1494), L.Point(2, 1696), L.Point(3, 1898)], 2) == [Entry(1292, 2), Entry(1494, 1)]
    ensures RecoverSpec([L.Point(1, 1494), L.Point(2, 1696), L.Point(3, 1898)], 2) == Ok(1292)
  {
    var points := [L.Point(1, 1494), L.Point(2, 1696), L.Point(3, 1898)];
    ThreePointSuccesses();
    ThreePointTally();
    ThreePointWinner();
    assert Tallies(points)(2) == [Entry(1292, 2), Entry(1494, 1)];
    OutcomeAt(Tallies(points), 2, 3);
  }
}
