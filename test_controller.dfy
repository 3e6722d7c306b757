/** The test controller: the test repository it owns, the two message
    handlers that update it (control topic and statistic topic), and the two
    read accessors of its query interface. Each handler is proved to leave
    the repository as the corresponding function of the test registry
    prescribes. */
module Controller {
  import opened Optional
  import opened JavaLong
  import opened JavaText
  import opened StatisticCodec
  import opened TestRegistry

  /** The answer of `getTest`: status NO_CONTENT, or OK with the record. */
  datatype Response = NoContent | Ok(body: TestData)

  /** An entry of the `getTests` list: a test id and its change counter. */
  datatype StrippedTest = StrippedTest(id: Int64, lastChange: Int64)

  /** The ids listed in entries. */
  function ListedIds(entries: seq<StrippedTest>): set<Int64> {
    if |entries| == 0 then {} else ListedIds(entries[..|entries| - 1]) + {entries[|entries| - 1].id}
  }

  lemma ListedIdsSnoc(entries: seq<StrippedTest>, entry: StrippedTest)
    ensures ListedIds(entries + [entry]) == ListedIds(entries) + {entry.id}
  {
    assert (entries + [entry])[..|entries|] == entries;
  }

  /** entries list, once each and with their change counters, exactly the
      stored tests that are not in remaining. */
  ghost predicate ListsAllBut(entries: seq<StrippedTest>, remaining: set<Int64>, tests: Store) {
    && remaining <= tests.Keys
    && ListedIds(entries) == tests.Keys - remaining
    && |entries| + |remaining| == |tests.Keys|
    && (forall i :: 0 <= i < |entries| ==>
          && entries[i].id in tests && entries[i].id !in remaining
          && entries[i].lastChange == tests[entries[i].id].lastChange)
    && (forall i, j :: 0 <= i < j < |entries| ==> entries[i].id != entries[j].id)
  }

  /** Listing one more remaining test keeps ListsAllBut. */
  lemma ListsOneMore(entries: seq<StrippedTest>, remaining: set<Int64>, tests: Store, id: Int64)
    requires KeyedById(tests) && ListsAllBut(entries, remaining, tests) && id in remaining
    ensures ListsAllBut(entries + [StrippedTest(tests[id].id, tests[id].lastChange)], remaining - {id}, tests)
  {
    var entry := StrippedTest(tests[id].id, tests[id].lastChange);
    ListedIdsSnoc(entries, entry);
    assert |remaining - {id}| == |remaining| - 1;
  }

  /** The configuration of a start message: the parts after keyword and id,
      with a single space put back between each two. */
  method CollectConfig(messageParts: seq<string>) returns (testConfig: string)
    requires |messageParts| >= 2
    ensures testConfig == Join(messageParts[2..])
  {
    testConfig := "";
    if |messageParts| > 2 {
      var sb := "";
      var first := true;
      var i := 2;
      while i < |messageParts|
        invariant 2 <= i <= |messageParts|
        invariant first <==> i == 2
        invariant !first ==> sb == Join(messageParts[2..i])
        invariant first ==> sb == ""
      {
        if !first {
          sb := sb + " ";
        }
        first := false;
        JoinSnoc(messageParts[2..i], messageParts[i]);
        assert messageParts[2..i + 1] == messageParts[2..i] + [messageParts[i]];
        sb := sb + messageParts[i];
        i := i + 1;
      }
      assert messageParts[2..i] == messageParts[2..];
      testConfig := sb;
    } else {
      assert messageParts[2..] == [];
    }
  }

  class TestController {
    /** The test repository. */
    var tests: Store
    /** The statistic library the handlers call. */
    const lib: StatisticLibrary
    /** The change counter a newly saved TestData starts with. */
    const initialLastChange: Int64

    ghost predicate Valid()
      reads this
    {
      KeyedById(tests)
    }

    constructor (repository: Store, lib: StatisticLibrary, initialLastChange: Int64)
      requires KeyedById(repository)
      ensures Valid()
      ensures tests == repository && this.lib == lib && this.initialLastChange == initialLastChange
    {
      tests := repository;
      this.lib := lib;
      this.initialLastChange := initialLastChange;
    }

    /** GET /test/{id}: the stored record, or NO_CONTENT when there is none. */
    function GetTest(id: Int64): (r: Response)
      reads this
      requires Valid()
      ensures r.NoContent? <==> id !in tests
      ensures r.Ok? ==> r.body == tests[id] && r.body.id == id
    {
      if id in tests then Ok(tests[id]) else NoContent
    }

    /** GET /tests: one (id, lastChange) entry per stored record. */
    method GetTests() returns (list: seq<StrippedTest>)
      requires Valid()
      ensures |list| == |tests|
      ensures ListedIds(list) == tests.Keys
      ensures forall i :: 0 <= i < |list| ==> list[i].id in tests && list[i].lastChange == tests[list[i].id].lastChange
      ensures forall i, j :: 0 <= i < j < |list| ==> list[i].id != list[j].id
    {
      list := [];
      var remaining := tests.Keys;
      while remaining != {}
        invariant ListsAllBut(list, remaining, tests)
        decreases remaining
      {
        var id :| id in remaining;
        var t := tests[id];
        ListsOneMore(list, remaining, tests, id);
        list := list + [StrippedTest(t.id, t.lastChange)];
        remaining := remaining - {id};
      }
    }

    /** The handler of the control topic. */
    method ReceivedControlMessage(message: string)
      requires Valid()
      modifies this
      ensures Valid()
      ensures tests == ControlTransition(old(tests), message, lib, initialLastChange)
    {
      var messageParts := Split(message);
      if |messageParts| == 0 {
        return;
      }
      if |messageParts| < 2 {
        return;
      }
      if messageParts[0] == START_KEYWORD {
        var parsed := ParseLong(messageParts[1]);
        if parsed.None? {
          return;
        }
        var testId := parsed.value;
        var testConfig := CollectConfig(messageParts);
        var emptyStat := lib.empty(testId);
        if emptyStat.None? {
          return;
        }
        var serialized := lib.serialize(emptyStat.value, 0);
        if serialized.None? {
          return;
        }
        var test := StartedRecord(testId, testConfig, initialLastChange, serialized.value);
        tests := tests[test.id := test];
      } else if messageParts[0] == END_KEYWORD {
        var parsed := ParseLong(messageParts[1]);
        if parsed.None? {
          return;
        }
        var testId := parsed.value;
        if testId !in tests {
          return;
        }
        var test := tests[testId];
        test := test.(isActive := false);
        test := test.(lastChange := Inc64(test.lastChange));
        tests := tests[test.id := test];
      }
    }

    /** The handler of the statistic topic. */
    method ReceivedTimeMessage(payload: Bytes)
      requires Valid()
      modifies this
      ensures Valid()
      ensures tests == StatisticTransition(old(tests), payload, lib)
    {
      var decoded := lib.parse(payload);
      if decoded.None? {
        return;
      }
      var stats := decoded.value;
      if stats.id !in tests {
        return;
      }
      var test := tests[stats.id];
      if test.serializedStatistic.None? || |test.serializedStatistic.value| == 0 {
        test := test.(serializedStatistic := Some(payload));
        tests := tests[test.id := test];
      } else {
        var stored := lib.parse(test.serializedStatistic.value);
        if stored.None? {
          return;
        }
        var protoSA := stored.value;
        var merged := lib.merge(protoSA, stats);
        if merged.None? {
          return;
        }
        var sequenceNr := Max32(protoSA.sequenceNr, stats.sequenceNr);
        var serialized := lib.serialize(merged.value, sequenceNr);
        if serialized.None? {
          return;
        }
        test := test.(serializedStatistic := Some(serialized.value));
        tests := tests[test.id := test];
      }
    }
  }
}
