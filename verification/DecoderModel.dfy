/** What one call of the decoder does to its state (`netcode/detail/decoder.cc`), as functions on values.
    `Decoder.dfy` has the methods that change the state in place and proves that they compute these
    functions. */
module DecoderModel {
  import opened Wrappers
  import opened GaloisField
  import opened LinearAlgebra
  import opened Ids
  import opened Symbols

  /** The fields of the decoder. `missing` maps each missing source to the repairs that encode it,
      `ordered` holds the identifiers of the sources queued for in-order delivery, and `log` is what the
      callback has been given so far. */
  datatype State<E> = State(
    inOrder: bool,
    repairs: map<nat, Repair<E>>,
    sources: map<nat, seq<E>>,
    missing: map<nat, set<nat>>,
    lastId: Option<nat>,
    firstMissing: nat,
    ordered: set<nat>,
    log: seq<Source<E>>,
    useless: nat,
    failed: nat,
    decoded: nat)

  function Initial<E>(inOrder: bool): State<E> {
    State(inOrder, map[], map[], map[], None, 0, {}, [], 0, 0, 0)
  }

  // ----- delivery

  /** `flush_ordered_sources` */
  function Flush<E>(d: State<E>): (r: State<E>)
    ensures r == d.(log := r.log, ordered := r.ordered, firstMissing := r.firstMissing)
    decreases |d.ordered|
  {
    var s := d.firstMissing;
    if s in d.ordered && s in d.sources then
      Flush(d.(log := d.log + [Source(s, d.sources[s])], ordered := d.ordered - {s}, firstMissing := s + 1))
    else d
  }

  /** What `add_source_recursive` does first with a new source: give it to the callback, if it may. */
  function Announce<E>(d: State<E>, src: Source<E>): (r: State<E>)
    ensures r == d.(log := r.log, ordered := r.ordered, firstMissing := r.firstMissing)
  {
    if !d.inOrder then d.(log := d.log + [src])
    else if src.id == d.firstMissing then
      Flush(d.(log := d.log + [src], firstMissing := d.firstMissing + 1))
    else d
  }

  /** What `add_source_recursive` does last: the source is stored, and queued if older ones are missing. */
  function Store<E>(d: State<E>, src: Source<E>): State<E> {
    d.(sources := d.sources[src.id := src.data],
       ordered := if d.inOrder && src.id > d.firstMissing then d.ordered + {src.id} else d.ordered)
  }

  // ----- recursive decoding

  /** The source is removed from the repairs that encode it, and is no longer missing. */
  function Unlink<E(!new)>(f: Field<E>, d: State<E>, src: Source<E>): State<E> {
    if src.id !in d.missing then d
    else
      var links := d.missing[src.id];
      d.(repairs := map k | k in d.repairs :: if k in links then Strip(f, d.repairs[k], src) else d.repairs[k],
         missing := d.missing - {src.id})
  }

  /** A missing source with a single repair, which encodes nothing else. */
  predicate Ready<E>(d: State<E>, y: nat) {
    && y in d.missing
    && |d.missing[y]| == 1
    && (var k := Min(d.missing[y]); k in d.repairs && |d.repairs[k].ids| == 1)
  }

  function Above<E>(d: State<E>, from: nat): set<nat> {
    set y | y in d.missing && from <= y
  }

  /** The missing sources from `from` on, in increasing order: decode those that are ready. */
  function Scan<E(!new)>(f: Field<E>, d: State<E>, from: nat): (r: State<E>)
    ensures r.missing.Keys <= d.missing.Keys && r.inOrder == d.inOrder && r.useless == d.useless
    decreases |d.missing.Keys|, 0, |Above(d, from)|
  {
    var rest := Above(d, from);
    if rest == {} then d
    else
      var y := Min(rest);
      assert Above(d, y + 1) == rest - {y};
      if !Ready(d, y) then Scan(f, d, y + 1)
      else
        var k := Min(d.missing[y]);
        var taken := Take(d, y, k);
        SubsetSize(taken.missing.Keys, d.missing.Keys);
        var added := Add(f, taken, Create(f, d.repairs[k]));
        SubsetSize(added.missing.Keys, taken.missing.Keys);
        Scan(f, added, y + 1)
  }

  /** The source `y` is about to be rebuilt from repair `k`: neither is needed any more. */
  function Take<E>(d: State<E>, y: nat, k: nat): State<E> {
    d.(repairs := d.repairs - {k}, missing := d.missing - {y}, decoded := d.decoded + 1)
  }

  /** `add_source_recursive` */
  function Add<E(!new)>(f: Field<E>, d: State<E>, src: Source<E>): (r: State<E>)
    ensures r.missing.Keys <= d.missing.Keys && r.inOrder == d.inOrder && r.useless == d.useless
    decreases |d.missing.Keys|, 1, 0
  {
    var unlinked := Unlink(f, Announce(d, src), src);
    SubsetSize(unlinked.missing.Keys, d.missing.Keys);
    Store(Scan(f, unlinked, 0), src)
  }

  // ----- outdating

  function Deliveries<E>(ids: seq<nat>, sources: map<nat, seq<E>>): seq<Source<E>> {
    seq(|ids|, i requires 0 <= i < |ids| => Source(ids[i], if ids[i] in sources then sources[ids[i]] else []))
  }

  /** Everything queued below `id` is handed over in order, and `id` becomes the next source to wait for,
      unless a later one already is. */
  function HandOver<E>(d: State<E>, id: nat): State<E> {
    var due := set s | s in d.ordered && s < id;
    d.(log := d.log + Deliveries(Sorted(due), d.sources),
       ordered := d.ordered - due,
       firstMissing := if d.firstMissing < id then id else d.firstMissing)
  }

  /** The in-order part of `drop_outdated`. */
  function Release<E>(d: State<E>, id: nat): (r: State<E>)
    ensures r == d.(log := r.log, ordered := r.ordered, firstMissing := r.firstMissing)
  {
    Flush(HandOver(d, id))
  }

  /** The repairs that encode a source older than `id`. */
  function Outdated<E>(d: State<E>, id: nat): set<nat> {
    set k | k in d.repairs && d.repairs[k].ids != {} && Min(d.repairs[k].ids) < id
  }

  function DropRepairs<E>(d: State<E>, id: nat): State<E> {
    var gone := Outdated(d, id);
    d.(lastId := Some(id),
       repairs := d.repairs - gone,
       missing := map m | m in d.missing :: d.missing[m] - gone)
  }

  function EraseBelow<E>(d: State<E>, id: nat): State<E> {
    d.(sources := map s | s in d.sources && id <= s :: d.sources[s],
       missing := map m | m in d.missing && id <= m :: d.missing[m])
  }

  /** `drop_outdated` */
  function DropOutdated<E>(d: State<E>, id: nat): State<E> {
    var dropped := DropRepairs(d, id);
    EraseBelow(if d.inOrder then Release(dropped, id) else dropped, id)
  }

  // ----- full decoding

  function RepairList<E>(d: State<E>): (rs: seq<Repair<E>>)
    ensures |rs| == |d.repairs.Keys|
  {
    var ks := Sorted(d.repairs.Keys);
    seq(|ks|, j requires 0 <= j < |ks| => assert ks[j] in ks; d.repairs[ks[j]])
  }

  /** The coefficient of source `s` in a repair that encodes `ids`. */
  function Entry<E(!new)>(f: Field<E>, repairId: nat, ids: set<nat>, s: nat): E {
    if s in ids then f.Coefficient(repairId, s) else f.zero
  }

  function Entries<E(!new)>(f: Field<E>, repairId: nat, ids: set<nat>, ms: seq<nat>): seq<E> {
    seq(|ms|, k requires 0 <= k < |ms| => Entry(f, repairId, ids, ms[k]))
  }

  /** One row per repair, one column per missing source. */
  function CoefficientsOf<E(!new)>(f: Field<E>, rs: seq<Repair<E>>, ms: seq<nat>): Matrix<E> {
    seq(|rs|, j requires 0 <= j < |rs| => Entries(f, rs[j].id, rs[j].ids, ms))
  }

  function Coefficients<E(!new)>(f: Field<E>, d: State<E>): Matrix<E> {
    CoefficientsOf(f, RepairList(d), Sorted(d.missing.Keys))
  }

  function SymbolsAt<E(!new)>(f: Field<E>, rs: seq<Repair<E>>, i: nat): seq<E> {
    seq(|rs|, j requires 0 <= j < |rs| => f.At(rs[j].symbol, i))
  }

  function SizesAt<E(!new)>(f: Field<E>, rs: seq<Repair<E>>, i: nat): seq<E> {
    seq(|rs|, j requires 0 <= j < |rs| => f.At(rs[j].size, i))
  }

  /** The encoded size of the source that row `l` of the inverted matrix picks. */
  function RebuiltSize<E(!new)>(f: Field<E>, l: seq<E>, rs: seq<Repair<E>>): seq<E>
    requires |l| == |rs|
  {
    seq(f.sizeLen, i requires 0 <= i < f.sizeLen => Dot(f, l, SizesAt(f, rs, i)))
  }

  /** The source `s`, as the combination of the repairs given by row `l` of the inverted matrix. */
  function Rebuilt<E(!new)>(f: Field<E>, l: seq<E>, rs: seq<Repair<E>>, s: nat): Source<E>
    requires |l| == |rs|
  {
    var n := f.dec(RebuiltSize(f, l, rs));
    Source(s, seq(n, i requires 0 <= i < n => Dot(f, l, SymbolsAt(f, rs, i))))
  }

  /** What full decoding does with a source it has rebuilt. */
  function Deliver<E>(d: State<E>, src: Source<E>): (r: State<E>)
    ensures r == d.(sources := r.sources, log := r.log, ordered := r.ordered, firstMissing := r.firstMissing)
  {
    var stored := d.(sources := d.sources[src.id := src.data]);
    if !d.inOrder then stored.(log := d.log + [src])
    else if src.id == d.firstMissing then
      Flush(stored.(log := d.log + [src], firstMissing := d.firstMissing + 1))
    else stored.(ordered := d.ordered + {src.id})
  }

  function DeliverAll<E>(d: State<E>, srcs: seq<Source<E>>): (r: State<E>)
    ensures r == d.(sources := r.sources, log := r.log, ordered := r.ordered, firstMissing := r.firstMissing)
    decreases |srcs|
  {
    if srcs == [] then d else Deliver(DeliverAll(d, srcs[..|srcs| - 1]), srcs[|srcs| - 1])
  }

  function RebuiltAll<E(!new)>(f: Field<E>, l: Matrix<E>, rs: seq<Repair<E>>, ms: seq<nat>): seq<Source<E>>
    requires |l| == |ms| && forall k | 0 <= k < |l| :: |l[k]| == |rs|
  {
    seq(|ms|, k requires 0 <= k < |ms| => Rebuilt(f, l[k], rs, ms[k]))
  }

  /** Successful full decoding, with `l` the inverse of the coefficients. */
  function Solve<E(!new)>(f: Field<E>, d: State<E>, l: Matrix<E>): State<E>
    requires IsSquare(l, |d.missing.Keys|) && |d.missing.Keys| == |d.repairs.Keys|
  {
    var srcs := RebuiltAll(f, l, RepairList(d), Sorted(d.missing.Keys));
    DeliverAll(d, srcs).(repairs := map[], missing := map[], decoded := d.decoded + |d.missing.Keys|)
  }

  /** Failed full decoding: the repair at the reported index, always the last one, is given up. */
  function GiveUp<E>(d: State<E>): State<E>
    requires |d.repairs.Keys| > 0
  {
    var k := Max(d.repairs.Keys);
    d.(repairs := d.repairs - {k},
       missing := map m | m in d.missing :: d.missing[m] - {k},
       failed := d.failed + 1)
  }

  ghost predicate Solved<E(!new)>(f: Field<E>, d: State<E>, d': State<E>, l: Matrix<E>) {
    && |d.missing.Keys| == |d.repairs.Keys|
    && IsSquare(l, |d.missing.Keys|)
    && LeftInverse(f, l, Coefficients(f, d))
    && d' == Solve(f, d, l)
  }

  /** `attempt_full_decoding` */
  ghost predicate FullStep<E(!new)>(f: Field<E>, d: State<E>, d': State<E>) {
    if |d.repairs.Keys| == 0 || |d.missing.Keys| == 0 || |d.missing.Keys| > |d.repairs.Keys| then d' == d
    else if Singular(f, Coefficients(f, d)) then d' == GiveUp(d)
    else exists l: Matrix<E> :: Solved(f, d, d', l)
  }

  // ----- the two entry points

  predicate IsOld<E>(d: State<E>, id: nat) {
    d.lastId.Some? && id < d.lastId.value
  }

  /** `operator()(decoder_source&&)` */
  ghost predicate SourceStep<E(!new)>(f: Field<E>, d: State<E>, src: Source<E>, d': State<E>) {
    if IsOld(d, src.id) || src.id in d.sources then d' == d
    else FullStep(f, Add(f, d, src), d')
  }

  /** Every source known already is removed from an incoming repair, the largest identifier first. */
  function StripKnown<E(!new)>(f: Field<E>, r: Repair<E>, sources: map<nat, seq<E>>, known: set<nat>): Repair<E>
    requires known <= sources.Keys
    decreases |known|
  {
    if known == {} then r
    else
      var s := Max(known);
      StripKnown(f, Strip(f, r, Source(s, sources[s])), sources, known - {s})
  }

  /** The stripped repair is kept, and linked with the sources it still encodes. */
  function Link<E>(d: State<E>, r: Repair<E>): State<E> {
    d.(repairs := d.repairs[r.id := r],
       missing := map m | m in d.missing.Keys + r.ids ::
         (if m in d.missing then d.missing[m] else {}) + (if m in r.ids then {r.id} else {}))
  }

  /** A useful repair, once outdated data has been dropped. */
  ghost predicate UsefulStep<E(!new)>(f: Field<E>, d: State<E>, r: Repair<E>, d': State<E>) {
    var s := StripKnown(f, r, d.sources, r.ids * d.sources.Keys);
    var linked := Link(d, s);
    if |s.ids| == 1 then d' == Add(f, Take(linked, Min(s.ids), r.id), Create(f, s))
    else FullStep(f, linked, d')
  }

  /** `operator()(decoder_repair&&)` */
  ghost predicate RepairStep<E(!new)>(f: Field<E>, d: State<E>, r: Repair<E>, d': State<E>)
    requires r.ids != {}
  {
    if IsOld(d, Max(r.ids)) || r.id in d.repairs then d' == d
    else
      var current := DropOutdated(d, Min(r.ids));
      if r.ids <= current.sources.Keys then d' == current.(useless := current.useless + 1)
      else UsefulStep(f, current, r, d')
  }
}
