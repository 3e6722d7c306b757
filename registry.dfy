/** The test registry kept by the test controller: a store of test records
    keyed by test id, the parsing of control messages ("testStart <id>
    [<config>]", "testEnd <id>"), and the two transitions of the store, one
    per message topic. These functions specify the handlers of the
    controller class; the lemmas state what the handlers promise. */
module TestRegistry {
  import opened Optional
  import opened JavaLong
  import opened JavaText
  import opened StatisticCodec

  /** A stored test: its id, the configuration text it was started with,
      whether it still runs, a change counter, and the serialized cumulative
      statistic (`None` for a null array). */
  datatype TestData = TestData(
    id: Int64,
    testConfig: string,
    isActive: bool,
    lastChange: Int64,
    serializedStatistic: Option<Bytes>)

  /** The test repository: records keyed by test id. */
  type Store = map<Int64, TestData>

  /** The repository keys every record by its own id. */
  predicate KeyedById(store: Store) {
    forall id :: id in store ==> store[id].id == id
  }

  const START_KEYWORD := "testStart"
  const END_KEYWORD := "testEnd"

  /** What a control message asks for. */
  datatype ControlCommand = Start(id: Int64, config: string) | End(id: Int64) | Ignored

  /** The decision of the control handler: split at spaces; at least two
      parts; a known keyword first; a `long` second; for a start, the
      configuration is the remaining parts joined by single spaces. */
  function ParseControl(message: string): (cmd: ControlCommand)
    ensures cmd.Start? ==> |cmd.config| == 0 || cmd.config[|cmd.config| - 1] != ' '
  {
    var parts := Split(message);
    if |parts| < 2 then Ignored
    else if parts[0] == START_KEYWORD then
      (match ParseLong(parts[1])
       case None => Ignored
       case Some(id) =>
         var config := Join(parts[2..]);
         assert |parts| > 2 ==> config[|config| - 1] != ' ' by {
           if |parts| > 2 {
             JoinEndsWithLastPart(parts[2..]);
           }
         }
         Start(id, config))
    else if parts[0] == END_KEYWORD then
      (match ParseLong(parts[1])
       case None => Ignored
       case Some(id) => End(id))
    else Ignored
  }

  /** The record `new TestData(id, config, statistic)` saves: active, with
      the change counter the constructor gives it. */
  function StartedRecord(id: Int64, config: string, initialLastChange: Int64, statistic: Bytes): (r: TestData)
    ensures r.id == id && r.isActive
  {
    TestData(id, config, true, initialLastChange, Some(statistic))
  }

  /** The store after a control command. A start saves a fresh record
      (nothing, if the empty statistic cannot be built or serialized); an
      end of a stored
      test marks it inactive and counts one change. */
  function ApplyControl(store: Store, cmd: ControlCommand, lib: StatisticLibrary, initialLastChange: Int64): (after: Store)
    ensures KeyedById(store) ==> KeyedById(after)
    ensures store.Keys <= after.Keys
    ensures forall id :: id in store && (cmd.Ignored? || id != cmd.id) ==> id in after && after[id] == store[id]
  {
    match cmd
    case Ignored => store
    case Start(id, config) =>
      (match lib.empty(id)
       case None => store
       case Some(emptyStatistic) =>
         (match lib.serialize(emptyStatistic, 0)
          case None => store
          case Some(bytes) => store[id := StartedRecord(id, config, initialLastChange, bytes)]))
    case End(id) =>
      if id !in store then store
      else store[id := store[id].(isActive := false, lastChange := Inc64(store[id].lastChange))]
  }

  function ControlTransition(store: Store, message: string, lib: StatisticLibrary, initialLastChange: Int64): Store {
    ApplyControl(store, ParseControl(message), lib, initialLastChange)
  }

  /** The store after a statistic message. Only the record the message names
      can change, and only in its serialized statistic: the first statistic
      is stored as received, later ones are merged into the stored one and
      written with the larger of the two sequence numbers. A message that
      does not decode, names no stored test, or whose merge fails changes
      nothing; so does one whose merged statistic cannot be serialized. */
  function StatisticTransition(store: Store, payload: Bytes, lib: StatisticLibrary): (after: Store)
    ensures after.Keys == store.Keys
    ensures forall id :: id in store ==>
      after[id] == store[id].(serializedStatistic := after[id].serializedStatistic)
    ensures forall id :: id in store && (lib.parse(payload).None? || id != lib.parse(payload).value.id) ==>
      after[id] == store[id]
    ensures KeyedById(store) ==> KeyedById(after)
  {
    match lib.parse(payload)
    case None => store
    case Some(incoming) =>
      if incoming.id !in store then store
      else
        var test := store[incoming.id];
        if test.serializedStatistic.None? || |test.serializedStatistic.value| == 0 then
          store[incoming.id := test.(serializedStatistic := Some(payload))]
        else
          match lib.parse(test.serializedStatistic.value)
          case None => store
          case Some(current) =>
            match lib.merge(current, incoming)
            case None => store
            case Some(merged) =>
              match lib.serialize(merged, Max32(current.sequenceNr, incoming.sequenceNr))
              case None => store
              case Some(bytes) => store[incoming.id := test.(serializedStatistic := Some(bytes))]
  }

  // ---------------------------------------------------------------------
  // Control messages

  /** A message that splits into fewer than two parts is ignored. */
  lemma ControlIgnoresFewParts(store: Store, message: string, lib: StatisticLibrary, initialLastChange: Int64)
    requires |Split(message)| < 2
    ensures ControlTransition(store, message, lib, initialLastChange) == store
  {
  }

  /** A single word followed by nothing but spaces is ignored: that covers
      the empty message, a message of spaces only, a keyword alone and a
      keyword followed by spaces ("testEnd "). */
  lemma ControlIgnoresBlankOrSingleWord(store: Store, word: string, spaces: string, lib: StatisticLibrary, initialLastChange: Int64)
    requires ' ' !in word
    requires forall i :: 0 <= i < |spaces| ==> spaces[i] == ' '
    ensures |Split(word + spaces)| < 2
    ensures ControlTransition(store, word + spaces, lib, initialLastChange) == store
  {
    SplitWordAndSpaces(word, spaces);
  }

  /** A message whose first part is neither keyword is ignored. */
  lemma ControlIgnoresUnknownKeyword(store: Store, message: string, lib: StatisticLibrary, initialLastChange: Int64)
    requires |Split(message)| > 0
    requires Split(message)[0] != START_KEYWORD && Split(message)[0] != END_KEYWORD
    ensures ControlTransition(store, message, lib, initialLastChange) == store
  {
  }

  /** A start or end whose id is not a `long` is ignored. */
  lemma ControlIgnoresBadId(store: Store, message: string, lib: StatisticLibrary, initialLastChange: Int64)
    requires |Split(message)| >= 2 && ParseLong(Split(message)[1]).None?
    ensures ControlTransition(store, message, lib, initialLastChange) == store
  {
  }

  /** A message that splits into the start keyword, a printed id and more
      parts starts that test with the more parts joined. */
  lemma StartFromParts(message: string, id: Int64, more: seq<string>)
    requires Split(message) == [START_KEYWORD, FormatLong(id)] + more
    ensures ParseControl(message) == Start(id, Join(more))
  {
    ParseFormatRoundTrip(id);
    assert Split(message)[2..] == more;
  }

  /** "testStart <id> <config>" carries the configuration exactly, when it
      does not end in a space; "testStart <id>" carries the empty one. */
  lemma StartMessageRoundTrip(id: Int64, config: string)
    requires |config| == 0 || config[|config| - 1] != ' '
    ensures ParseControl(START_KEYWORD + " " + FormatLong(id) + " " + config) == Start(id, config)
    ensures ParseControl(START_KEYWORD + " " + FormatLong(id)) == Start(id, "")
  {
    var digits := FormatLong(id);
    if |config| == 0 {
      SplitTwoWordsAndSpace(START_KEYWORD, digits);
      assert START_KEYWORD + " " + digits + " " + config == START_KEYWORD + " " + digits + " ";
      StartFromParts(START_KEYWORD + " " + digits + " ", id, []);
    } else {
      SplitTwoWordsAndText(START_KEYWORD, digits, config);
      JoinPieces(config);
      StartFromParts(START_KEYWORD + " " + digits + " " + config, id, Pieces(config));
    }
    SplitWordPair(START_KEYWORD, digits);
    StartFromParts(START_KEYWORD + " " + digits, id, []);
  }

  /** A configuration loses the spaces it ends with: "testStart <id> c "
      starts the test with configuration c. */
  lemma StartConfigLosesTrailingSpace(id: Int64, config: string)
    requires |config| > 0 && config[|config| - 1] != ' '
    ensures ParseControl(START_KEYWORD + " " + FormatLong(id) + " " + config + " ") == Start(id, config)
  {
    var digits := FormatLong(id);
    var message := START_KEYWORD + " " + digits + " " + (config + " ");
    assert START_KEYWORD + " " + digits + " " + config + " " == message;
    SplitTwoWordsAndTextSpace(START_KEYWORD, digits, config);
    JoinPieces(config);
    StartFromParts(message, id, Pieces(config));
  }

  /** "testEnd <id>" asks to end test id. */
  lemma EndMessageRoundTrip(id: Int64)
    ensures ParseControl(END_KEYWORD + " " + FormatLong(id)) == End(id)
  {
    ParseFormatRoundTrip(id);
    SplitWordPair(END_KEYWORD, FormatLong(id));
  }

  /** The configuration of the integration test, which holds spaces and
      quotes, reaches the store unchanged. */
  lemma StartMessageWithQuotedConfig()
    ensures ParseControl("testStart 42 { a=\" b\"}") == Start(42, "{ a=\" b\"}")
  {
    var config := "{ a=\" b\"}";
    assert FormatLong(42) == "42" by {
      assert NatDigits(4) == [DigitChar(4)] == "4";
      assert NatDigits(42) == NatDigits(4) + [DigitChar(2)];
    }
    assert "testStart 42 { a=\" b\"}" == START_KEYWORD + " " + FormatLong(42) + " " + config;
    StartMessageRoundTrip(42, config);
  }

  /** A start saves an active record with the configuration and the
      serialized empty statistic, replacing any earlier record of that id
      and leaving every other record as it was. */
  lemma StartReplacesRecord(store: Store, id: Int64, config: string, lib: StatisticLibrary, initialLastChange: Int64)
    requires lib.empty(id).Some? && lib.serialize(lib.empty(id).value, 0).Some?
    ensures var after := ApplyControl(store, Start(id, config), lib, initialLastChange);
      && after.Keys == store.Keys + {id}
      && after[id].id == id
      && after[id].isActive
      && after[id].testConfig == config
      && after[id].lastChange == initialLastChange
      && after[id].serializedStatistic == lib.serialize(lib.empty(id).value, 0)
      && forall other :: other in store && other != id ==> after[other] == store[other]
  {
  }

  /** A start whose empty statistic cannot be built or serialized saves nothing. */
  lemma StartWithoutStatisticIgnored(store: Store, id: Int64, config: string, lib: StatisticLibrary, initialLastChange: Int64)
    requires lib.empty(id).None? || lib.serialize(lib.empty(id).value, 0).None?
    ensures ApplyControl(store, Start(id, config), lib, initialLastChange) == store
  {
  }

  /** An end of a stored test marks it inactive and counts one change (with
      Java's wrap-around at Long.MAX_VALUE); configuration, statistic and the
      other records stay. An end of an unknown test changes nothing. */
  lemma EndDeactivatesRecord(store: Store, id: Int64, lib: StatisticLibrary, initialLastChange: Int64)
    ensures var after := ApplyControl(store, End(id), lib, initialLastChange);
      && after.Keys == store.Keys
      && (id !in store ==> after == store)
      && (id in store ==>
        && !after[id].isActive
        && after[id].lastChange == Inc64(store[id].lastChange)
        && after[id].id == store[id].id
        && after[id].testConfig == store[id].testConfig
        && after[id].serializedStatistic == store[id].serializedStatistic)
      && forall other :: other in store && other != id ==> after[other] == store[other]
  {
  }

  /** Starting a test and then ending it leaves an inactive record with the
      start's configuration and statistic, one change past its initial count. */
  lemma StartThenEnd(store: Store, id: Int64, config: string, lib: StatisticLibrary, initialLastChange: Int64)
    requires lib.empty(id).Some? && lib.serialize(lib.empty(id).value, 0).Some?
    ensures var started := ApplyControl(store, Start(id, config), lib, initialLastChange);
      var ended := ApplyControl(started, End(id), lib, initialLastChange);
      && id in ended
      && !ended[id].isActive
      && ended[id].testConfig == config
      && ended[id].lastChange == Inc64(initialLastChange)
      && ended[id].serializedStatistic == lib.serialize(lib.empty(id).value, 0)
  {
  }

  // ---------------------------------------------------------------------
  // Statistic messages

  /** A statistic that does not decode, or that names no stored test, is dropped. */
  lemma IngestDropsUnknownTest(store: Store, payload: Bytes, lib: StatisticLibrary)
    requires lib.parse(payload).None? || lib.parse(payload).value.id !in store
    ensures StatisticTransition(store, payload, lib) == store
  {
  }

  /** A statistic for a test whose stored statistic does not decode, whose
      merge fails, or whose merged statistic cannot be serialized, is
      dropped: the exception is caught before anything is saved. */
  lemma IngestKeepsStoreOnFailure(store: Store, payload: Bytes, lib: StatisticLibrary, incoming: StatisticProto)
    requires lib.parse(payload) == Some(incoming) && incoming.id in store
    requires store[incoming.id].serializedStatistic.Some?
    requires |store[incoming.id].serializedStatistic.value| > 0
    requires var current := lib.parse(store[incoming.id].serializedStatistic.value);
      || current.None?
      || lib.merge(current.value, incoming).None?
      || lib.serialize(lib.merge(current.value, incoming).value, Max32(current.value.sequenceNr, incoming.sequenceNr)).None?
    ensures StatisticTransition(store, payload, lib) == store
  {
  }

  /** The first statistic of a test is stored byte for byte as received. */
  lemma IngestStoresFirstStatistic(store: Store, payload: Bytes, lib: StatisticLibrary)
    requires lib.parse(payload).Some? && lib.parse(payload).value.id in store
    requires var stored := store[lib.parse(payload).value.id].serializedStatistic;
      stored.None? || |stored.value| == 0
    ensures var id := lib.parse(payload).value.id;
      StatisticTransition(store, payload, lib)[id].serializedStatistic == Some(payload)
  {
  }

  /** A later statistic is merged into the stored one, and the result is
      written with the larger of the two sequence numbers. */
  lemma IngestMergesStatistic(store: Store, payload: Bytes, lib: StatisticLibrary, incoming: StatisticProto, current: StatisticProto)
    requires lib.parse(payload) == Some(incoming) && incoming.id in store
    requires store[incoming.id].serializedStatistic.Some?
    requires var stored := store[incoming.id].serializedStatistic.value;
      |stored| > 0 && lib.parse(stored) == Some(current)
    requires lib.merge(current, incoming).Some?
    requires lib.serialize(lib.merge(current, incoming).value, Max32(current.sequenceNr, incoming.sequenceNr)).Some?
    ensures var merged := lib.merge(current, incoming).value;
      var sequenceNr := Max32(current.sequenceNr, incoming.sequenceNr);
      && StatisticTransition(store, payload, lib)[incoming.id].serializedStatistic == lib.serialize(merged, sequenceNr)
      && sequenceNr >= current.sequenceNr && sequenceNr >= incoming.sequenceNr
  {
  }

  /** The sequence number a stored statistic decodes to never decreases: if
      a test's statistic decodes to sequence number n, then after any
      statistic message it still decodes, to a number at least n. */
  lemma IngestNeverLowersSequence(store: Store, payload: Bytes, lib: StatisticLibrary, id: Int64, current: StatisticProto)
    requires StampsSequence(lib)
    requires id in store && store[id].serializedStatistic.Some?
    requires |store[id].serializedStatistic.value| > 0
    requires lib.parse(store[id].serializedStatistic.value) == Some(current)
    ensures var after := StatisticTransition(store, payload, lib)[id].serializedStatistic;
      && after.Some?
      && lib.parse(after.value).Some?
      && lib.parse(after.value).value.sequenceNr >= current.sequenceNr
  {
    var after := StatisticTransition(store, payload, lib);
    if after[id] != store[id] {
      var incoming := lib.parse(payload).value;
      var merged := lib.merge(current, incoming).value;
      var sequenceNr := Max32(current.sequenceNr, incoming.sequenceNr);
      assert after[id].serializedStatistic == lib.serialize(merged, sequenceNr);
      assert lib.parse(lib.serialize(merged, sequenceNr).value).value.sequenceNr == sequenceNr;
    }
  }
}
