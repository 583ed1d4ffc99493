/** One packet, processed as the code says: its assertions hold, and no iterator is read whose entry has been erased.
    Where this is not so the code has no defined behaviour, and nothing is claimed of it. */
module Processing {
  import opened GaloisField
  import opened Ids
  import opened DecoderModel
  import opened EncoderModel
  import opened Peeling
  import opened DecoderInvariant
  import opened DecoderSteps
  import opened SavedIterator
  import opened Transmission

  ghost predicate Sound<E>(d: State<E>) {
    Links(d) && Young(d) && Balanced(d)
  }

  /** A source that no held repair encodes alone, or a repair that is alone with its single unknown source or has
      several of them; or one that is not looked at. */
  ghost predicate Defined<E(!new)>(f: Field<E>, d: State<E>, p: Packet<E>) {
    Sound(d) &&
    match p
    case SourcePacket(src) =>
      IsOld(d, src.id) || src.id in d.sources || (Strippable(d, src.id) && SourceKeepsIterators(f, d, src))
    case RepairPacket(r) =>
      && r.ids != {}
      && (IsOld(d, Max(r.ids)) || r.id in d.repairs
          || (MayArrive(DropOutdated(d, Min(r.ids)), r.ids) && RepairKeepsIterators(d, r)))
  }

  ghost predicate Takes<E(!new)>(f: Field<E>, d: State<E>, p: Packet<E>, d': State<E>) {
    Defined(f, d, p) && Receives(f, d, p, d')
  }
}
