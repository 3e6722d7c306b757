/** The statistic classes the controller calls into. The decoded message
    (`StatisticProtos.Statistic`) is represented by the two fields the
    controller reads, the test id and the sequence number, plus the encoded
    remainder, which it never inspects. The operations of `Statistic` and
    the protobuf codec are not part of this model: they are given as
    function values, so every property proved below holds whatever they do. */
module StatisticCodec {
  import opened Optional
  import opened JavaLong

  type Bytes = seq<bv8>

  /** A decoded statistic message: test id, sequence number (read through
      an `int` getter), and the populations, left encoded. */
  datatype StatisticProto = StatisticProto(id: Int64, sequenceNr: Int32, populations: Bytes)

  /** The operations of the statistic library, each `None` where the Java
      call throws. */
  datatype StatisticLibrary = StatisticLibrary(
    // StatisticProtos.Statistic.parseFrom(bytes)
    parse: Bytes -> Option<StatisticProto>,
    // new Statistic(testId): the empty statistic of a test
    empty: Int64 -> Option<StatisticProto>,
    // new Statistic(a), new Statistic(b), then a.Merge(b)
    merge: (StatisticProto, StatisticProto) -> Option<StatisticProto>,
    // s.Serialize(sequenceNr).toByteArray()
    serialize: (StatisticProto, Int32) -> Option<Bytes>
  )

  /** The library writes the sequence number it is given, so that parsing
      the bytes it serializes reads that number back. */
  ghost predicate StampsSequence(lib: StatisticLibrary) {
    forall s, n :: lib.serialize(s, n).Some? ==>
      lib.parse(lib.serialize(s, n).value).Some? && lib.parse(lib.serialize(s, n).value).value.sequenceNr == n
  }
}
