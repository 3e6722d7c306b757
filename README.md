# Test registry of the performance-data storage backend

This project models, in Dafny, the core of `TestController` of the
performance-data storage backend of a load-testing system. The controller
keeps a repository of test records keyed by test id. Each record holds the
test's configuration text, whether it is still active, a change counter
(`lastChange`) and the serialized cumulative statistic of the test. The
controller updates the repository from two message-bus topics:

- the control topic carries plain-text messages `testStart <id> [<config>]`
  and `testEnd <id>`. The text is split at single spaces exactly as Java's
  `String.split(" ")` does. The id is parsed as `Long.parseLong` parses it.
  The configuration is put back together from the remaining parts.
- the statistic topic carries encoded statistics. The first statistic of a
  test is stored byte for byte. A later one is merged into the stored
  statistic, which is then written with the larger of the two sequence
  numbers.

Two read accessors return one record (`getTest`) and the list of
`(id, lastChange)` pairs (`getTests`).

Layout:

- `optional.dfy`: `Option`, standing for a null reference, an `Optional`, or
  an exception the caller catches.
- `java_long.dfy`: `long`/`int` ranges, `Long.parseLong`, `Long.toString`,
  `long` increment with wrap-around, `Math.max`.
- `java_text.dfy`: `String.split(" ")` (`Split`), joining with single spaces
  (`Join`), and the lemmas that make each the inverse of the other.
- `statistic_codec.dfy`: the decoded statistic message, and the statistic
  library (parse, empty statistic, merge, serialize) as function values whose
  behaviour is left open.
- `registry.dfy`: the test record, the control-message parser, and the two
  store transitions as functions, with the lemmas about them.
- `test_controller.dfy`: the class `TestController`. Its repository is a `map`
  field. Its two handlers are methods proved to leave the repository exactly
  as the registry functions say. It also has the two accessors and the loop
  that rebuilds the configuration.

The model follows the code on these points:

- a statistic for an unknown test is dropped and the handler returns
  normally.
- the first statistic of a test is stored byte for byte as received.
- a statistic that fails to decode, or whose merge or serialization throws,
  is caught and nothing is saved.
- the sequence number is read through a Java `int` getter and compared with
  `Math.max` on `int`.

## Model

| member | source | states |
|---|---|---|
| `JavaText.Split` | src/main/java/de/hpi/tdgt/controller/TestController.java:74 | no part holds a space; when the text holds a space, the last part is not empty (trailing empty parts are dropped) |
| `JavaText.Pieces` | src/main/java/de/hpi/tdgt/controller/TestController.java:74 | the pieces between spaces: at least one, none holding a space |
| `JavaText.DropTrailingEmpty` | src/main/java/de/hpi/tdgt/controller/TestController.java:74 | the result is a prefix of the input that does not end in an empty string, and everything cut off is empty |
| `JavaText.SplitBlank` | src/main/java/de/hpi/tdgt/controller/TestController.java:74-77 | the empty text splits into one empty part; a text of one or more spaces splits into no part |
| `JavaText.JoinPieces` | src/main/java/de/hpi/tdgt/controller/TestController.java:94-106 | joining the pieces of any text with single spaces restores the text |
| `JavaText.PiecesJoin` | src/main/java/de/hpi/tdgt/controller/TestController.java:94-106 | splitting the join of space-free parts gives the parts back |
| `JavaText.SplitJoin` | src/main/java/de/hpi/tdgt/controller/TestController.java:74-107 | split then join restores every text that does not end in a space |
| `JavaText.JoinSnoc` | src/main/java/de/hpi/tdgt/controller/TestController.java:100-104 | appending a part to a join adds one space and the part (no space before the first part) |
| `JavaText.PiecesAround` | src/main/java/de/hpi/tdgt/controller/TestController.java:74 | the pieces of `a + " " + b` are those of a followed by those of b |
| `JavaText.JoinEndsWithLastPart` | src/main/java/de/hpi/tdgt/controller/TestController.java:98-106 | a join ends in the last character of its last part |
| `JavaLong.ParseLong` | src/main/java/de/hpi/tdgt/controller/TestController.java:87 | a text that parses is not empty and holds no space (its value is stated by `ParseLongOfSignedDigits` and `ParseLongRejectsNonDigit`) |
| `JavaLong.ParseLongOfSignedDigits` | src/main/java/de/hpi/tdgt/controller/TestController.java:85-91 | an empty, `+` or `-` sign followed by one or more digits parses to its signed value, leading zeros included, exactly when that value is in the `long` range, and to `None` otherwise |
| `JavaLong.ParseLongRejectsNonDigit` | src/main/java/de/hpi/tdgt/controller/TestController.java:85-91 | a text holding a character that is neither a digit nor a leading sign does not parse |
| `JavaLong.ParseLongExamples` | src/main/java/de/hpi/tdgt/controller/TestController.java:87 | `"007"` parses to 7, `"+5"` to 5, and `"1a"` does not parse |
| `JavaLong.ParseFormatRoundTrip` | src/main/java/de/hpi/tdgt/controller/TestController.java:85-91 | every `long`, printed in decimal, parses back to itself |
| `JavaLong.ParseLongRejectsOverflow` | src/main/java/de/hpi/tdgt/controller/TestController.java:85-91 | a number above `Long.MAX_VALUE`, or below `Long.MIN_VALUE`, does not parse |
| `JavaLong.ParseLongRejectsNoDigits` | src/main/java/de/hpi/tdgt/controller/TestController.java:118-124 | the empty text and a bare sign do not parse |
| `JavaLong.NatDigits` | src/test/java/de/hpi/tdgt/TestControllerTest.java:146 | the decimal digits of n, without a leading zero, denote n |
| `JavaLong.FormatLong` | src/test/java/de/hpi/tdgt/TestControllerTest.java:155 | a printed `long` is not empty and holds no space |
| `JavaLong.Inc64` | src/main/java/de/hpi/tdgt/controller/TestController.java:132 | `++` adds one, and wraps `Long.MAX_VALUE` to `Long.MIN_VALUE` |
| `JavaLong.Max32` | src/main/java/de/hpi/tdgt/controller/TestController.java:159 | the result is one of the two arguments and at least both |
| `TestRegistry.ParseControl` | src/main/java/de/hpi/tdgt/controller/TestController.java:74-107 | a start command's configuration never ends in a space |
| `TestRegistry.StartedRecord` | src/main/java/de/hpi/tdgt/controller/TestController.java:111 | a new record carries its id and is active |
| `TestRegistry.ApplyControl` | src/main/java/de/hpi/tdgt/controller/TestController.java:108-133 | records stay keyed by id; no record is removed; every record other than the command's id is unchanged |
| `TestRegistry.StatisticTransition` | src/main/java/de/hpi/tdgt/controller/TestController.java:141-168 | the key set is unchanged; only the serialized statistic of a record can change, and only that of the id the message decodes to |
| `TestRegistry.ControlIgnoresFewParts` | src/main/java/de/hpi/tdgt/controller/TestController.java:74-81 | every message that splits into fewer than two parts leaves the store unchanged |
| `TestRegistry.ControlIgnoresBlankOrSingleWord` | src/main/java/de/hpi/tdgt/controller/TestController.java:74-81 | a word followed only by spaces (the empty message, spaces only, `testEnd `, a lone keyword) has fewer than two parts and leaves the store unchanged |
| `JavaText.SplitWordAndSpaces` | src/main/java/de/hpi/tdgt/controller/TestController.java:74 | a space-free word followed by spaces splits into the word alone, or into nothing when the word is empty; with no spaces it is returned whole |
| `TestRegistry.ControlIgnoresUnknownKeyword` | src/main/java/de/hpi/tdgt/controller/TestController.java:135-138 | a first part other than `testStart`/`testEnd` leaves the store unchanged |
| `TestRegistry.ControlIgnoresBadId` | src/main/java/de/hpi/tdgt/controller/TestController.java:85-91 | a second part that is not a `long` leaves the store unchanged |
| `TestRegistry.StartMessageRoundTrip` | src/main/java/de/hpi/tdgt/controller/TestController.java:92-107 | `testStart <id> <config>` carries config exactly when it does not end in a space; `testStart <id>` carries the empty config |
| `TestRegistry.StartConfigLosesTrailingSpace` | src/main/java/de/hpi/tdgt/controller/TestController.java:74 | a trailing space of the config is lost |
| `TestRegistry.EndMessageRoundTrip` | src/main/java/de/hpi/tdgt/controller/TestController.java:117-124 | `testEnd <id>` asks to end test id |
| `TestRegistry.StartMessageWithQuotedConfig` | src/test/java/de/hpi/tdgt/TestControllerTest.java:152-157 | the integration test's config `{ a=" b"}` reaches the start command unchanged |
| `TestRegistry.StartReplacesRecord` | src/main/java/de/hpi/tdgt/controller/TestController.java:108-112 | when the empty statistic can be built and serialized, a start saves an active record with the config, the initial change counter and the serialized empty statistic (sequence number 0); it replaces any earlier record of that id; other records are unchanged |
| `TestRegistry.StartWithoutStatisticIgnored` | src/main/java/de/hpi/tdgt/controller/TestController.java:113-115 | when the empty statistic cannot be built or cannot be serialized, the store is unchanged |
| `TestRegistry.EndDeactivatesRecord` | src/main/java/de/hpi/tdgt/controller/TestController.java:126-133 | an end of a stored test sets it inactive and increments `lastChange` as a `long` (`Long.MAX_VALUE` wraps to `Long.MIN_VALUE`), keeping config, statistic and other records; an end of an unknown test changes nothing |
| `TestRegistry.StartThenEnd` | src/test/java/de/hpi/tdgt/TestControllerTest.java:160-168 | start then end leaves an inactive record with the start's config and statistic, one change past the initial counter |
| `TestRegistry.IngestDropsUnknownTest` | src/main/java/de/hpi/tdgt/controller/TestController.java:143-147 | a statistic that does not decode, or names no stored test, leaves the store unchanged |
| `TestRegistry.IngestStoresFirstStatistic` | src/main/java/de/hpi/tdgt/controller/TestController.java:148-150 | when the stored statistic is null or empty, the payload is stored byte for byte |
| `TestRegistry.IngestKeepsStoreOnFailure` | src/main/java/de/hpi/tdgt/controller/TestController.java:152-167 | when the stored statistic does not decode, the merge fails or the merged statistic cannot be serialized, the store is unchanged |
| `TestRegistry.IngestMergesStatistic` | src/main/java/de/hpi/tdgt/controller/TestController.java:152-161 | otherwise the merge result is stored, serialized with a sequence number at least the stored one and at least the incoming one |
| `TestRegistry.IngestNeverLowersSequence` | src/main/java/de/hpi/tdgt/controller/TestController.java:141-168 | if serialize writes the sequence number it is given, the sequence number a stored statistic decodes to never decreases, whatever message arrives |
| `Controller.CollectConfig` | src/main/java/de/hpi/tdgt/controller/TestController.java:92-107 | the `StringBuilder` loop yields the parts after keyword and id joined by single spaces |
| `Controller.TestController.constructor` | src/main/java/de/hpi/tdgt/controller/TestController.java:35-38 | the controller takes over the repository |
| `Controller.TestController.GetTest` | src/main/java/de/hpi/tdgt/controller/TestController.java:40-46 | NO_CONTENT exactly when the id is not stored; otherwise OK with the stored record, whose id is the one asked for; reads only |
| `Controller.TestController.GetTests` | src/main/java/de/hpi/tdgt/controller/TestController.java:48-53 | exactly one `(id, lastChange)` entry per stored record, with that record's counter; changes nothing |
| `Controller.TestController.ReceivedControlMessage` | src/main/java/de/hpi/tdgt/controller/TestController.java:73-139 | the repository becomes `ControlTransition` of the old one, and stays keyed by id |
| `Controller.TestController.ReceivedTimeMessage` | src/main/java/de/hpi/tdgt/controller/TestController.java:141-168 | the repository becomes `StatisticTransition` of the old one, and stays keyed by id |

## Left out

- MQTT client setup, connection and subscription (`setupMqttClient`): network I/O. Handlers are called directly with the message.
- Decoding the MQTT payload into a `String` (`message.toString()`, platform charset): the control handler receives the text.
- Logging: it has no effect on the repository.
- The `Statistic` class and the protobuf codec are not part of this model. Parse, the empty statistic, merge and serialize are function values with no behaviour assumed; each may fail (`None`), standing for an exception, and then nothing is saved. `IngestNeverLowersSequence` assumes only that serialized bytes decode to the sequence number they were given. The population merge (counts, extrema, sums) is therefore not modelled, and neither are its commutativity and associativity.
- JavaLong.ParseLong: accepts ASCII digits only. `Character.digit` also accepts other Unicode decimal digits.
- The `lastChange` value of a new record comes from a `TestData` constructor that is not part of this model. It is a constant given to the controller (`initialLastChange`). `lastChange` is taken to be a Java `long`.
- JavaLong.Max32: the sequence number is compared as a Java `int`. If the wire field is an unsigned 32-bit number, values of 2^31 and above compare as negative. The model follows the Java comparison and does not model the unsigned view.
- Repository semantics (JPA): `save` is modelled as a map update keyed by the record's id, and `findById`/`findAll` as map lookup and iteration. Storage failures and the iteration order of `findAll` are not modelled; `GetTests` promises no order.
- Concurrency: MQTT callbacks can interleave and the code takes no lock. Each handler is modelled as one atomic step.
- `TimeController`, `AssertionController`, `UserController`, the JPA entities and the repositories: thin wrappers over libraries that are not shown.
