/** The byte layout of packets (`netcode/detail/packetizer.hh`): what is written, and what reading yields.
    Integers are big-endian and truncated to their width; an identifier list is its first element followed
    by run-length encoded 16-bit differences. `Packetizer.dfy` has the loops. */
module PacketFormat {
  import opened Wrappers
  import opened Division
  import opened Ids

  type Byte = b: nat | b < 256

  /** What a reader makes of the bytes left: an overflow error, or a value and what remains. */
  datatype Parsed<+T> = Overflow | Parsed(value: T, rest: seq<Byte>)

  /** A run of equal differences. */
  datatype Pair = Pair(run: nat, value: nat)

  /** The value is read, whatever remains. */
  ghost predicate Reads<T>(read: Parsed<T>, value: T) {
    read.Parsed? && read.value == value
  }

  /** What is left of an integer in 16 or 32 bits. */
  ghost function Cut16(n: nat): (r: nat)
    ensures r <= 65535
  {
    Remainder(n, 65536)
  }

  ghost function Cut32(n: nat): (r: nat)
    ensures r < TWO_TO_THE_32
  {
    Remainder(n, TWO_TO_THE_32)
  }

  /** Cutting an integer keeps it exactly when it fits, and makes it smaller otherwise. */
  lemma CutExactly(n: nat)
    ensures Cut16(n) == n <==> n <= 65535
    ensures Cut32(n) == n <==> n < TWO_TO_THE_32
    ensures Cut16(n) <= n && Cut32(n) <= n
  {
    DivideIs(n, 65536);
    DivideIs(n, TWO_TO_THE_32);
  }

  // ----- integers

  ghost function Low8(n: nat): Byte {
    Remainder(n, 256)
  }

  ghost function Put16(n: nat): (b: seq<Byte>)
    ensures |b| == 2
  {
    [Low8(Quotient(n, 256)), Low8(n)]
  }

  ghost function Put32(n: nat): (b: seq<Byte>)
    ensures |b| == 4
  {
    Put16(Quotient(n, 65536)) + Put16(n)
  }

  ghost function Get8(data: seq<Byte>): Parsed<nat> {
    if |data| < 1 then Overflow else Parsed(data[0], data[1..])
  }

  function Join(hi: nat, lo: nat): nat {
    hi * 256 + lo
  }

  ghost function Get16(data: seq<Byte>): Parsed<nat> {
    if |data| < 2 then Overflow else Parsed(Join(data[0], data[1]), data[2..])
  }

  ghost function Get32(data: seq<Byte>): Parsed<nat> {
    if |data| < 4 then Overflow
    else Parsed(Join(data[0], data[1]) * 65536 + Join(data[2], data[3]), data[4..])
  }

  ghost function GetBytes(data: seq<Byte>, n: nat): Parsed<seq<Byte>> {
    if |data| < n then Overflow else Parsed(data[..n], data[n..])
  }

  lemma Low16(n: nat)
    ensures Cut16(n) == Join(Low8(Quotient(n, 256)), Low8(n))
  {
    DivideIs(n, 65536);
    DivideIs(n, 256);
    DivideIs(Quotient(n, 256), 256);
    var q := n / 256;
    var p := q / 256;
    assert n == 256 * q + n % 256 && q == 256 * p + q % 256;
    assert n == 65536 * p + (256 * (q % 256) + n % 256);
  }

  lemma Low32(n: nat)
    ensures Cut32(n) == Cut16(Quotient(n, 65536)) * 65536 + Cut16(n)
  {
    DivideIs(n, TWO_TO_THE_32);
    DivideIs(n, 65536);
    DivideIs(Quotient(n, 65536), 65536);
    var q := n / 65536;
    var p := q / 65536;
    assert n == 65536 * q + n % 65536 && q == 65536 * p + q % 65536;
    assert n == TWO_TO_THE_32 * p + (65536 * (q % 65536) + n % 65536);
  }

  lemma Get16Put(n: nat, rest: seq<Byte>)
    ensures Get16(Put16(n) + rest) == Parsed(Cut16(n), rest)
  {
    Low16(n);
  }

  lemma Get32Put(n: nat, rest: seq<Byte>)
    ensures Get32(Put32(n) + rest) == Parsed(Cut32(n), rest)
  {
    var q := Quotient(n, 65536);
    Low16(q);
    Low16(n);
    Low32(n);
    hide Join, Quotient, Low8, Cut16, Cut32;
    var data := Put32(n) + rest;
    var hi, lo := Put16(q), Put16(n);
    assert data[0] == hi[0] && data[1] == hi[1] && data[2] == lo[0] && data[3] == lo[1];
  }

  // ----- differences and runs

  /** `adjacent_difference` without its first element. */
  ghost function Gaps(ids: seq<nat>): (d: seq<nat>)
    requires Increasing(ids)
    ensures ids != [] ==> |d| == |ids| - 1
  {
    if |ids| < 2 then [] else [ids[1] - ids[0]] + Gaps(ids[1..])
  }

  /** How many leading elements are equal, at most `limit`. */
  ghost function Leading(d: seq<nat>, limit: nat): (n: nat)
    requires d != [] && limit > 0
    ensures 1 <= n <= |d| && n <= limit
    ensures forall i | 0 <= i < n :: d[i] == d[0]
    ensures n == limit || n == |d| || d[n] != d[0]
  {
    if |d| > 1 && d[0] == d[1] && limit > 1 then 1 + Leading(d[1..], limit - 1) else 1
  }

  /** Runs of at most 255 equal differences, each difference cut to 16 bits. */
  ghost function Runs(d: seq<nat>): seq<Pair>
    decreases |d|
  {
    if d == [] then []
    else
      var n := Leading(d, 255);
      [Pair(n, Cut16(d[0]))] + Runs(d[n..])
  }

  ghost function Repeat(x: nat, n: nat): seq<nat> {
    seq(n, _ => x)
  }

  ghost function Expand(ps: seq<Pair>): seq<nat> {
    if ps == [] then [] else Repeat(ps[0].value, ps[0].run) + Expand(ps[1..])
  }

  ghost function Cut(d: seq<nat>): seq<nat> {
    seq(|d|, i requires 0 <= i < |d| => Cut16(d[i]))
  }

  /** Expanding the runs gives the differences back, cut to 16 bits. */
  lemma {:induction false} ExpandRuns(d: seq<nat>)
    ensures Expand(Runs(d)) == Cut(d)
    decreases |d|
  {
    if d != [] {
      var n := Leading(d, 255);
      ExpandRuns(d[n..]);
      CutSplits(d, n);
      hide Leading, Cut, Repeat;
      assert Runs(d)[0] == Pair(n, Cut16(d[0])) && Runs(d)[1..] == Runs(d[n..]);
    }
  }

  lemma CutSplits(d: seq<nat>, n: nat)
    requires 0 < n <= |d| && forall i | 0 <= i < n :: d[i] == d[0]
    ensures Cut(d) == Repeat(Cut16(d[0]), n) + Cut(d[n..])
  {
  }

  /** Every run fits in 8 bits, and two neighbouring runs of the same difference mean that the first is
      full. */
  ghost predicate Maximal(ps: seq<Pair>) {
    && (forall i | 0 <= i < |ps| :: 1 <= ps[i].run <= 255 && ps[i].value < 65536)
    && (forall i | 0 <= i < |ps| - 1 && ps[i].value == ps[i + 1].value :: ps[i].run == 255)
  }

  lemma MaximalGrows(p: Pair, ps: seq<Pair>)
    requires Maximal(ps) && 1 <= p.run <= 255 && p.value < 65536
    requires ps != [] && ps[0].value == p.value ==> p.run == 255
    ensures Maximal([p] + ps)
  {
    var all := [p] + ps;
    forall i | 0 <= i < |all| - 1 && all[i].value == all[i + 1].value
      ensures all[i].run == 255
    {
      if i > 0 {
        assert all[i] == ps[i - 1] && all[i + 1] == ps[i];
      }
    }
  }

  /** The runs of differences that fit in 16 bits are maximal, and no more than the differences. */
  lemma {:induction false} RunsAreMaximal(d: seq<nat>)
    requires forall i | 0 <= i < |d| :: d[i] < 65536
    ensures Maximal(Runs(d))
    ensures |Runs(d)| <= |d|
    decreases |d|
  {
    hide Maximal;
    if d != [] {
      var n := Leading(d, 255);
      RunsAreMaximal(d[n..]);
      if d[n..] != [] {
        FirstRun(d[n..]);
      }
      MaximalGrows(Pair(n, d[0]), Runs(d[n..]));
    } else {
      NoRuns();
    }
  }

  lemma NoRuns()
    ensures Maximal([])
  {
  }

  lemma FirstRun(d: seq<nat>)
    requires d != []
    ensures Runs(d) != [] && Runs(d)[0].value == Cut16(d[0])
  {
  }

  lemma RunsFit(d: seq<nat>)
    ensures forall i | 0 <= i < |Runs(d)| :: 1 <= Runs(d)[i].run <= 255 && Runs(d)[i].value < 65536
    decreases |d|
  {
    if d != [] {
      RunsFit(d[Leading(d, 255)..]);
    }
  }

  // ----- identifier lists

  ghost function PutPairs(ps: seq<Pair>): seq<Byte> {
    if ps == [] then [] else [Low8(ps[0].run)] + Put16(ps[0].value) + PutPairs(ps[1..])
  }

  /** `write(source_id_list)` */
  ghost function PutIds(ids: seq<nat>): seq<Byte>
    requires Increasing(ids)
  {
    if ids == [] then Put16(0)
    else
      var ps := Runs(Gaps(ids));
      Put16(|ps| + 1) + Put32(ids[0]) + PutPairs(ps)
  }

  ghost function GetPairs(data: seq<Byte>, n: nat): Parsed<seq<Pair>>
    decreases n
  {
    if n == 0 then Parsed([], data)
    else
      var run := Get8(data);
      if run.Overflow? then Overflow
      else
        var value := Get16(run.rest);
        if value.Overflow? then Overflow
        else
          var more := GetPairs(value.rest, n - 1);
          if more.Overflow? then Overflow
          else Parsed([Pair(run.value, value.value)] + more.value, more.rest)
  }

  /** `partial_sum`, in 32 bits. */
  ghost function Sums(first: nat, d: seq<nat>): (ids: seq<nat>)
    ensures |ids| == |d| + 1
    decreases |d|
  {
    [first] + if d == [] then [] else Sums(Cut32(first + d[0]), d[1..])
  }

  /** `read_ids` */
  ghost function GetIds(data: seq<Byte>): Parsed<set<nat>> {
    var count := Get16(data);
    if count.Overflow? then Overflow
    else if count.value == 0 then Parsed({}, count.rest)
    else
      var first := Get32(count.rest);
      if first.Overflow? then Overflow
      else
        var ps := GetPairs(first.rest, count.value - 1);
        if ps.Overflow? then Overflow
        else Parsed(ToSet(Sums(first.value, Expand(ps.value))), ps.rest)
  }

  ghost predicate Fit32(ids: seq<nat>) {
    forall i | 0 <= i < |ids| :: ids[i] < TWO_TO_THE_32
  }

  /** The lists the format can carry: no gap above 65535, no more than 65535 elements once encoded. */
  ghost predicate Encodable(ids: seq<nat>)
    requires Increasing(ids)
  {
    && (forall i | 0 <= i < |Gaps(ids)| :: Gaps(ids)[i] <= 65535)
    && |Runs(Gaps(ids))| + 1 <= 65535
  }

  lemma {:induction false} GetPairsPut(ps: seq<Pair>, m: nat, rest: seq<Byte>)
    requires m <= |ps| && forall i | 0 <= i < |ps| :: ps[i].run <= 255 && ps[i].value < 65536
    ensures GetPairs(PutPairs(ps) + rest, m) == Parsed(ps[..m], PutPairs(ps[m..]) + rest)
    decreases m
  {
    if m == 0 {
      assert ps[0..] == ps;
    } else {
      var p := ps[0];
      var tail := PutPairs(ps[1..]) + rest;
      assert PutPairs(ps) + rest == [Low8(p.run)] + (Put16(p.value) + tail);
      Get16Put(p.value, tail);
      GetPairsPut(ps[1..], m - 1, rest);
      assert ps[1..][m - 1..] == ps[m..];
      assert [p] + ps[1..][..m - 1] == ps[..m];
    }
  }

  lemma {:induction false} SumsOfGaps(ids: seq<nat>)
    requires Increasing(ids) && ids != [] && Fit32(ids)
    ensures Sums(ids[0], Gaps(ids)) == ids
    decreases |ids|
  {
    if |ids| > 1 {
      SumsOfGaps(ids[1..]);
      assert Gaps(ids)[1..] == Gaps(ids[1..]);
      assert ids == [ids[0]] + ids[1..];
    } else {
      assert ids == [ids[0]];
    }
  }

  // ----- the largest identifier that is read

  ghost function Total(d: seq<nat>): nat {
    if d == [] then 0 else d[0] + Total(d[1..])
  }

  lemma SumsBounded(first: nat, d: seq<nat>)
    requires first + Total(d) < TWO_TO_THE_32
    ensures forall x | x in Sums(first, d) :: x <= first + Total(d)
    decreases |d|
  {
    if d != [] {
      SumsBounded(first + d[0], d[1..]);
      CutExactly(first + d[0]);
    }
  }

  lemma {:induction false} TotalOfGaps(ids: seq<nat>)
    requires Increasing(ids) && ids != []
    ensures ids[0] + Total(Gaps(ids)) == ids[|ids| - 1]
    ensures forall i | 0 <= i < |Gaps(ids)| :: Gaps(ids)[i] > 0
    decreases |ids|
  {
    if |ids| > 1 {
      TotalOfGaps(ids[1..]);
      assert Gaps(ids)[1..] == Gaps(ids[1..]);
    }
  }

  lemma {:induction false} TotalConcat(a: seq<nat>, b: seq<nat>)
    ensures Total(a + b) == Total(a) + Total(b)
  {
    if a == [] {
      assert a + b == b;
    } else {
      TotalConcat(a[1..], b);
      assert (a + b)[1..] == a[1..] + b;
    }
  }

  /** Cutting never adds, and removes something when a gap does not fit. */
  lemma {:induction false} TotalCut(d: seq<nat>)
    ensures Total(Cut(d)) <= Total(d)
    ensures (exists i :: 0 <= i < |d| && d[i] > 65535) ==> Total(Cut(d)) < Total(d)
  {
    if d != [] {
      TotalCut(d[1..]);
      assert Cut(d)[1..] == Cut(d[1..]);
      if i :| 0 <= i < |d| && d[i] > 65535 {
        if i > 0 {
          assert d[1..][i - 1] > 65535;
        } else {
          CutExactly(d[0]);
        }
      }
    }
  }

  lemma {:induction false} ExpandConcat(a: seq<Pair>, b: seq<Pair>)
    ensures Expand(a + b) == Expand(a) + Expand(b)
  {
    if a == [] {
      assert a + b == b;
    } else {
      ExpandConcat(a[1..], b);
      hide Repeat;
      assert (a + b)[0] == a[0] && (a + b)[1..] == a[1..] + b;
      Associate(Repeat(a[0].value, a[0].run), Expand(a[1..]), Expand(b));
    }
  }

  lemma TotalPrefix(ps: seq<Pair>, m: nat)
    requires m <= |ps|
    ensures Total(Expand(ps[..m])) <= Total(Expand(ps))
    ensures m < |ps| && ps[m].run > 0 && ps[m].value > 0 ==> Total(Expand(ps[..m])) < Total(Expand(ps))
  {
    assert ps == ps[..m] + ps[m..];
    ExpandConcat(ps[..m], ps[m..]);
    TotalConcat(Expand(ps[..m]), Expand(ps[m..]));
    if m < |ps| && ps[m].run > 0 && ps[m].value > 0 {
      var r := Repeat(ps[m].value, ps[m].run);
      TotalConcat(r, Expand(ps[m..][1..]));
      assert r[0] == ps[m].value;
    }
  }

  // ----- the round trip

  lemma PutIdsParts(ids: seq<nat>, rest: seq<Byte>)
    requires Increasing(ids) && ids != []
    ensures var ps := Runs(Gaps(ids));
            PutIds(ids) + rest == Put16(|ps| + 1) + (Put32(ids[0]) + (PutPairs(ps) + rest))
  {
    hide Runs, Gaps, PutPairs;
  }

  /** What reading back a written list yields, encodable or not: the count is taken modulo 65536, so that
      only that many runs are read. */
  lemma ReadBack(ids: seq<nat>, rest: seq<Byte>)
    requires Increasing(ids) && ids != [] && Fit32(ids)
    ensures var ps := Runs(Gaps(ids));
            var count := Cut16(|ps| + 1);
            && (count == 0 ==> GetIds(PutIds(ids) + rest) == Parsed({}, Put32(ids[0]) + (PutPairs(ps) + rest)))
            && (count > 0 ==>
                  GetIds(PutIds(ids) + rest)
                  == Parsed(ToSet(Sums(ids[0], Expand(ps[..count - 1]))), PutPairs(ps[count - 1..]) + rest))
  {
    hide Runs, Gaps, PutPairs, Put16, Put32, Get16, Get32, PutIds, Sums, Expand, ToSet, GetPairs;
    var ps := Runs(Gaps(ids));
    var count := Cut16(|ps| + 1);
    var tail := PutPairs(ps) + rest;
    PutIdsParts(ids, rest);
    Get16Put(|ps| + 1, Put32(ids[0]) + tail);
    Get32Put(ids[0], tail);
    CutExactly(ids[0]);
    RunsFit(Gaps(ids));
    if count > 0 {
      GetPairsPut(ps, count - 1, rest);
    }
  }

  /** What a list decodes to when all its runs are read. */
  lemma AllRunsGiveTheList(ids: seq<nat>)
    requires Increasing(ids) && ids != [] && Fit32(ids) && Encodable(ids)
    ensures Sums(ids[0], Expand(Runs(Gaps(ids)))) == ids
  {
    hide Sums, Expand, Runs, Cut, Gaps;
    ExpandRuns(Gaps(ids));
    CutIsIdentity(Gaps(ids));
    SumsOfGaps(ids);
  }

  lemma ReadBackAll(ids: seq<nat>, rest: seq<Byte>)
    requires Increasing(ids) && ids != [] && Fit32(ids) && |Runs(Gaps(ids))| + 1 <= 65535
    ensures GetIds(PutIds(ids) + rest) == Parsed(ToSet(Sums(ids[0], Expand(Runs(Gaps(ids))))), rest)
  {
    hide *;
    var ps := Runs(Gaps(ids));
    ReadBack(ids, rest);
    CutExactly(|ps| + 1);
    assert ps[..|ps|] == ps && ps[|ps|..] == [];
    NoPairs(rest);
  }

  lemma AtMost65535(ids: seq<nat>)
    requires Increasing(ids) && Encodable(ids)
    ensures |Runs(Gaps(ids))| + 1 <= 65535
  {
    hide Runs, Gaps;
  }

  lemma EmptyRoundTrip(rest: seq<Byte>)
    ensures GetIds(PutIds([]) + rest) == Parsed(ToSet([]), rest)
  {
    hide Put16, Get16, Cut16;
    Get16Put(0, rest);
    CutExactly(0);
    assert ToSet([]) == {};
  }

  lemma CutIsIdentity(d: seq<nat>)
    requires forall i | 0 <= i < |d| :: d[i] <= 65535
    ensures Cut(d) == d
  {
  }

  lemma NoPairs(rest: seq<Byte>)
    ensures PutPairs([]) + rest == rest
  {
  }

  /** Reading fewer or smaller differences than were written misses the last identifier. */
  lemma LastIsMissed(ids: seq<nat>, m: nat)
    requires Increasing(ids) && ids != [] && Fit32(ids) && m <= |Runs(Gaps(ids))|
    requires (exists i :: 0 <= i < |Gaps(ids)| && Gaps(ids)[i] > 65535) || m < |Runs(Gaps(ids))|
    ensures ids[|ids| - 1] !in Sums(ids[0], Expand(Runs(Gaps(ids))[..m]))
  {
    hide Runs, Gaps, Sums, Expand, Cut, Total;
    var d := Gaps(ids);
    var ps := Runs(d);
    TotalOfGaps(ids);
    ExpandRuns(d);
    TotalCut(d);
    TotalPrefix(ps, m);
    RunsFit(d);
    if forall i | 0 <= i < |d| :: d[i] <= 65535 {
      RunsArePositive(d);
    }
    assert Total(Expand(ps[..m])) < Total(d);
    SumsBounded(ids[0], Expand(ps[..m]));
  }

  /** A list that is not encodable loses its largest element. */
  lemma LastIsLost(ids: seq<nat>, rest: seq<Byte>)
    requires Increasing(ids) && ids != [] && Fit32(ids) && !Encodable(ids)
    ensures GetIds(PutIds(ids) + rest).Parsed? && ids[|ids| - 1] !in GetIds(PutIds(ids) + rest).value
  {
    hide Runs, Gaps, Sums, Expand, PutIds, GetIds, PutPairs, Put32;
    var ps := Runs(Gaps(ids));
    ReadBack(ids, rest);
    var count := Cut16(|ps| + 1);
    if count > 0 {
      LastIsMissed(ids, count - 1);
    }
  }

  lemma {:induction false} RunsArePositive(d: seq<nat>)
    requires forall i | 0 <= i < |d| :: 0 < d[i] <= 65535
    ensures forall i | 0 <= i < |Runs(d)| :: Runs(d)[i].value > 0
    decreases |d|
  {
    if d != [] {
      RunsArePositive(d[Leading(d, 255)..]);
    }
  }

  /** Exactly the encodable lists of 32-bit identifiers are read back, and nothing of what follows them is consumed. */
  lemma SurvivesExactlyWhenEncodable(ids: seq<nat>, rest: seq<Byte>)
    requires Increasing(ids)
    ensures GetIds(PutIds(ids) + rest) == Parsed(ToSet(ids), rest) <==> Fit32(ids) && Encodable(ids)
    ensures Reads(GetIds(PutIds(ids) + rest), ToSet(ids)) ==> Fit32(ids) && Encodable(ids)
  {
    hide PutIds, GetIds, Gaps, Runs;
    if ids == [] {
      NoGaps(ids);
      EmptyRoundTrip(rest);
    } else if Fit32(ids) && Encodable(ids) {
      AtMost65535(ids);
      ReadBackAll(ids, rest);
      AllRunsGiveTheList(ids);
    } else if Fit32(ids) {
      LastIsLost(ids, rest);
      assert ids[|ids| - 1] in ToSet(ids);
    } else {
      ReadIdsFit(PutIds(ids) + rest);
      var i :| 0 <= i < |ids| && ids[i] >= TWO_TO_THE_32;
      assert ids[i] in ToSet(ids);
    }
  }

  lemma NoGaps(ids: seq<nat>)
    requires Increasing(ids)
    ensures ids == [] ==> Encodable(ids)
  {
  }

  /** Whatever is read fits in 32 bits. */
  lemma ReadIdsFit(data: seq<Byte>)
    ensures GetIds(data).Parsed? ==> forall s | s in GetIds(data).value :: s < TWO_TO_THE_32
  {
    hide Sums, Expand, GetPairs, Get16;
    if GetIds(data).Parsed? && Get16(data).value != 0 {
      var first := Get32(Get16(data).rest);
      SumsFit(first.value, Expand(GetPairs(first.rest, Get16(data).value - 1).value));
    }
  }

  lemma {:induction false} SumsFit(first: nat, d: seq<nat>)
    requires first < TWO_TO_THE_32
    ensures Fit32(Sums(first, d))
    decreases |d|
  {
    if d != [] {
      SumsFit(Cut32(first + d[0]), d[1..]);
    }
  }

  /** Two identifiers too far apart: the second one is written as another one, between them or equal to the first. */
  lemma WideGap(a: nat, b: nat)
    requires a < b < TWO_TO_THE_32 && b - a > 65535
    ensures var ps := Runs(Gaps([a, b])); |ps| == 1 && ToSet(Sums(a, Expand(ps))) == {a, a + Cut16(b - a)}
  {
    var ids, p := [a, b], Pair(1, Cut16(b - a));
    assert ids[1..] == [b] && Gaps([b]) == [];
    assert Gaps(ids) == [b - a] && [b - a][1..] == [] && Runs([b - a]) == [p];
    CutExactly(b - a);
    CutExactly(a + Cut16(b - a));
    hide Runs, Gaps;
    ReadGap(a, p);
  }

  lemma SortedPair(a: nat, b: nat)
    requires a < b
    ensures Sorted({a, b}) == [a, b]
  {
    MinIs({a, b}, a);
    assert {a, b} - {a} == {b};
    MinIs({b}, b);
    assert {b} - {b} == {};
  }

  lemma ReadGap(a: nat, p: Pair)
    requires p.run == 1 && Cut32(a + p.value) == a + p.value
    ensures ToSet(Sums(a, Expand([p]))) == {a, a + p.value}
  {
    assert Expand([p]) == Repeat(p.value, 1) + Expand([p][1..]) && [p][1..] == [] && Expand([]) == [];
    assert Repeat(p.value, 1) == [p.value];
    assert Expand([p]) == [p.value] && [p.value][1..] == [];
    assert Sums(a, [p.value]) == [a] + Sums(a + p.value, []);
    assert Sums(a, [p.value]) == [a, a + p.value];
  }

  /** The length of a written list: three bytes per run after a header of six. */
  lemma {:induction false} PutPairsLength(ps: seq<Pair>)
    ensures |PutPairs(ps)| == 3 * |ps|
  {
    if ps != [] {
      PutPairsLength(ps[1..]);
    }
  }

  lemma PutIdsLength(ids: seq<nat>)
    requires Increasing(ids) && Encodable(ids)
    ensures ids != [] ==> |PutIds(ids)| == 6 + 3 * |Runs(Gaps(ids))| && |Runs(Gaps(ids))| <= |ids| - 1
    ensures ids == [] ==> |PutIds(ids)| == 2
  {
    if ids != [] {
      PutPairsLength(Runs(Gaps(ids)));
      RunsAreMaximal(Gaps(ids));
    }
  }
}
