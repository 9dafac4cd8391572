# datastore-common: a verified model of the database layer

This project models the core of the database module of power-up-software/datastore-common, in Dafny. It covers three parts:

- **The common executor.** `CommonDatabaseExecutor.getOpenSqlSession` opens a MyBatis SQL session. When the caller's role is not empty, it runs `SET ROLE` with the role filtered to ASCII letters and digits. If anything fails, it closes the session before passing the exception on.
- **The save rule.** `CommonDatabaseExecutor.saveObject` decides between insert, update and nothing. It does this by retrieving the stored object under the candidate's id, using the callbacks of a `DatabaseOperationGroup`.
- **The list type handlers.** The `StringListTypeHandler`, `IntegerListTypeHandler` and `UuidListTypeHandler` type handlers store a Java list in one text column. They exist in both package trees: the older `com.powerup` and the newer `com.powerupsoftwareengineering`.

## Modules

| module | models |
|---|---|
| `Wrappers` | `Option` and `Result` |
| `JavaText` | Java's `String.split(",")` (trailing empty pieces dropped), `String.join` / `StringUtils.join`, `Character.isWhitespace`, and the two decode guards |
| `JavaInteger` | Java `int` values, `String.valueOf(int)` and `Integer.parseInt` |
| `JavaUuid` | UUIDs as 32 hexadecimal digits, `UUID.toString` and `UUID.fromString` |
| `ModelObjects` | the model object (an id and its attributes), `ModelObjectParameterGroup`, and the datastore exceptions |
| `DatabaseOperationGroup` | the callback bundle and its two constructors |
| `CommonDatabaseExecutor` | the role filter, sessions and their factory, the save rule (`SaveSpec`), and the executor class |
| `StringListTypeHandler`, `IntegerListTypeHandler`, `UuidListTypeHandler` | each handler's writer, decoding loop and `getResult` |

### How the model is built

- **SQL sessions.** `SqlSession` is a class. Its fields are an `open` flag, the backend state `D` that the callbacks see through the session, a ghost flag set once `getConnection` succeeds, and a ghost log of the statements run on it. `SqlSessionFactory` keeps a ghost log of the sessions it opened, so `getOpenSqlSession`'s contract can say which session it opened and what became of it.
- **Failures.** What the database does (opening a session, getting the connection, creating and executing and closing a statement) may fail at any step. Each such failure is a nondeterministic choice inside the session methods.
- **Callbacks.** The callbacks are total functions of the backend state. Each gives back the new state and a normal or exceptional outcome. Any of the four may be absent, because the Java constructors accept null.
- **The save rule.** `saveObject` is a method on the executor class. It is proved to do exactly what the pure function `SaveSpec` says, with a ghost log of the callbacks it calls. The save properties are lemmas about `SaveSpec`.
- **Guards.** The two trees differ only in the guard before decoding. On the newer tree it is `StringVerificationUtil.isNotEmpty`; on the older it is `StringUtils.isNotBlank` / `isNoneBlank`. In the model, a `Check` parameter selects between them. Each handler has one model that serves both trees.
- **Decoding loops.** Every decoding loop is a method. Each is proved against a decoding function, and the round-trip properties are proved about those functions.

### Notes on the source

- `StringVerificationUtil` is not part of this model. Its `isNotEmpty` is taken to mean "non-null and of non-zero length", as its name says. In the three list handlers it replaced the older tree's `StringUtils.isNotBlank` / `isNoneBlank` (older StringListTypeHandler.java line 75, IntegerListTypeHandler.java line 68, UuidListTypeHandler.java line 66). The one place where it replaced `StringUtils.isNotEmpty` is the scalar `ZonedDateTimeBaseTypeHandler` (older line 51, newer line 68). `UuidListTypeHandler.GuardsDiffer`, the newer tree's whitespace-only result in `StringListTypeHandler.EmptyColumnReadsEmptyList`, and `JavaText.GuardsDisagreeOnlyOnWhitespace` depend on this reading; if `isNotEmpty` in fact rejected blank text, the two trees would agree there.
- **String list round trip.** The writer only writes a separator once the text so far is non-empty. So leading empty elements are lost. `split` drops trailing empty pieces, so trailing empty elements are lost too. The comma escape `%;` is itself not escaped. The exact set of lists that read back unchanged is in `RoundTrip` (newer tree) and `LegacyRoundTrip` (older tree).
- **The trees on whitespace-only text.** For a non-empty, whitespace-only column the behaviours differ:
  - The integer handler gives the same result in both trees: the single piece does not parse and is skipped.
  - The UUID handler in the newer tree throws on such a column, while in the older tree it returns the empty list.
  - The string handler in the newer tree returns the text as a one-element list, while in the older tree it returns the empty list.

## Model

| member | source | states |
|---|---|---|
| CommonDatabaseExecutor.FilterRole | database/src/main/java/com/powerup/datastore/common/database/service/CommonDatabaseExecutor.java:71 | the filtered role is no longer than the raw role and holds only ASCII letters and digits |
| CommonDatabaseExecutor.FilterRoleKeepsRoleCharacters | database/src/main/java/com/powerup/datastore/common/database/service/CommonDatabaseExecutor.java:71 | a role made only of letters and digits passes the filter unchanged |
| CommonDatabaseExecutor.FilterRoleIdempotent | database/src/main/java/com/powerup/datastore/common/database/service/CommonDatabaseExecutor.java:71 | filtering an already filtered role changes nothing |
| CommonDatabaseExecutor.FilterRoleAppend | database/src/main/java/com/powerup/datastore/common/database/service/CommonDatabaseExecutor.java:71 | the filter works character by character: filtering a concatenation is concatenating the filtered parts, so kept characters stay in order |
| CommonDatabaseExecutor.FilterRoleCounts | database/src/main/java/com/powerup/datastore/common/database/service/CommonDatabaseExecutor.java:71 | every letter and digit is kept as often as it occurs in the role; every other character is dropped entirely |
| CommonDatabaseExecutor.FilterRoleExample | database/src/main/java/com/powerup/datastore/common/database/service/CommonDatabaseExecutor.java:71 | the role `Role$%2&*` is filtered to `Role2` (the expectation of the executor test at CommonExecutorTest.java line 74) |
| CommonDatabaseExecutor.RoleStatements | database/src/main/java/com/powerup/datastore/common/database/service/CommonDatabaseExecutor.java:69-72 | at most one statement is run, and one is run exactly when the role is non-null and non-empty (`isNotEmpty`) |
| CommonDatabaseExecutor.RoleStatementExamples | database/src/main/java/com/powerup/datastore/common/database/service/CommonDatabaseExecutor.java:69-72 | role `Role` runs `SET ROLE Role`; a null or empty role runs nothing; a non-empty role with no letters or digits still runs the bare `SET ROLE ` |
| CommonDatabaseExecutor.SqlSessionFactory.OpenSession | database/src/main/java/com/powerup/datastore/common/database/service/CommonDatabaseExecutor.java:67 | `openSession()` gives a newly allocated open session that is not yet connected, has run no statement, sees the backend and is added to the factory's log of opened sessions; or it fails with MyBatis' unchecked PersistenceException and opens nothing |
| CommonDatabaseExecutor.SqlSession.GetConnection | database/src/main/java/com/powerup/datastore/common/database/service/CommonDatabaseExecutor.java:68 | `getConnection()` either succeeds, and the session is then connected, or fails with MyBatis' unchecked PersistenceException (never a SQLException); the session is otherwise unchanged |
| CommonDatabaseExecutor.SqlSession.ExecuteStatement | database/src/main/java/com/powerup/datastore/common/database/service/CommonDatabaseExecutor.java:70-71 | creating, executing and closing the statement leaves the session open and its backend unchanged; either the statement is logged as run, or the call failed; a failure may come before or after the statement ran |
| CommonDatabaseExecutor.SqlSession.Close | database/src/main/java/com/powerup/datastore/common/database/service/CommonDatabaseExecutor.java:79-81 | `close()` leaves the session closed, with its backend and statement log unchanged |
| CommonDatabaseExecutor.CommonDatabaseExecutor.GetOpenSqlSession | database/src/main/java/com/powerup/datastore/common/database/service/CommonDatabaseExecutor.java:63-83 | at most one session is opened, as the factory's log shows, and it sees the backend. On success it is the session returned: open, connected, and it has run exactly the role statement. On failure a session that was opened is closed before the exception propagates. The failure is SqlSessionException (the wrapped SQLException) exactly when a connection had been obtained, which needs a non-empty role; before that it is MyBatis' PersistenceException, passed on unwrapped |
| CommonDatabaseExecutor.CommonDatabaseExecutor.SaveObject | database/src/main/java/com/powerup/datastore/common/database/service/CommonDatabaseExecutor.java:98-114 | the outcome, the callbacks called in order and the new backend state are exactly those of the save rule `SaveSpec`; the session's open flag and statement log are unchanged |
| CommonDatabaseExecutor.SaveNullCandidate | database/src/main/java/com/powerup/datastore/common/database/service/CommonDatabaseExecutor.java:101-102 | a null candidate returns false, calls no callback and leaves the backend unchanged |
| CommonDatabaseExecutor.SaveRetrievesFirst | database/src/main/java/com/powerup/datastore/common/database/service/CommonDatabaseExecutor.java:104-105 | for a non-null candidate the first callback is retrieve, with the candidate's id, and every later callback is a write |
| CommonDatabaseExecutor.SaveStoresWhenAbsent | database/src/main/java/com/powerup/datastore/common/database/service/CommonDatabaseExecutor.java:106-107 | when nothing is stored under the id, store is called once with the candidate, update is never called, and the result and new state are the store callback's |
| CommonDatabaseExecutor.SaveWritesNothingWhenEqual | database/src/main/java/com/powerup/datastore/common/database/service/CommonDatabaseExecutor.java:108 | when an equal object is stored under the id, no write is made, the backend is unchanged, and the result is still true |
| CommonDatabaseExecutor.SaveUpdatesWhenDifferent | database/src/main/java/com/powerup/datastore/common/database/service/CommonDatabaseExecutor.java:108-110 | when a different object is stored under the id, update is called once with the candidate and the existing object, store is never called, and the result and new state are the update callback's |
| CommonDatabaseExecutor.SaveNeverCascades | database/src/main/java/com/powerup/datastore/common/database/service/CommonDatabaseExecutor.java:98-114 | the save never calls the cascade update callback: its value makes no difference to the outcome, calls or state |
| CommonDatabaseExecutor.SaveWritesAtMostOnce | database/src/main/java/com/powerup/datastore/common/database/service/CommonDatabaseExecutor.java:98-114 | every save makes at most one write, always as the second call; a save that writes nothing leaves the backend unchanged; a normal return is true exactly when there was a candidate |
| CommonDatabaseExecutor.SaveAfterStoreWritesNothing | database/src/main/java/com/powerup/datastore/common/database/service/CommonDatabaseExecutor.java:104-111 | saving an object again after a successful store that the backend then reads back writes nothing: the save is idempotent |
| DatabaseOperationGroup.Make | database/src/main/java/com/powerup/datastore/common/database/service/DatabaseOperationGroup.java:56-62 | every accessor returns exactly the callback given to the four-argument constructor, with no validation (the newer tree's copy is identical) |
| DatabaseOperationGroup.MakeWithoutCascade | database/src/main/java/com/powerup/datastore/common/database/service/DatabaseOperationGroup.java:43-46 | the three-argument constructor leaves the cascade update callback null and keeps the other three (the same in both trees) |
| DatabaseOperationGroup.AccessorsDetermineGroup | database/src/main/java/com/powerup/datastore/common/database/service/DatabaseOperationGroup.java:69-98 | rebuilding a group from its four accessors gives the same group: the accessors are read-only and fix the whole value |
| JavaText.SplitAll | database/src/main/java/com/powerupsoftwareengineering/datastore/common/database/typehandler/StringListTypeHandler.java:94 | every piece of a split on commas is comma-free, and there is always at least one piece |
| JavaText.Split | database/src/main/java/com/powerupsoftwareengineering/datastore/common/database/typehandler/StringListTypeHandler.java:94 | `split(",")` gives comma-free pieces, and for non-empty text never a trailing empty piece (limit 0) |
| JavaText.SplitRejoin | database/src/main/java/com/powerupsoftwareengineering/datastore/common/database/typehandler/StringListTypeHandler.java:94 | `split(",")` loses only a final run of commas: joined back with commas, its pieces give the text up to that run |
| JavaText.DropTrailingEmptyJoin | database/src/main/java/com/powerupsoftwareengineering/datastore/common/database/typehandler/StringListTypeHandler.java:94 | dropping trailing empty pieces shortens the joined text only by trailing separators |
| JavaText.JoinEnds | database/src/main/java/com/powerupsoftwareengineering/datastore/common/database/typehandler/IntegerListTypeHandler.java:53 | `String.join` / `StringUtils.join` text starts with the first piece and ends with the last; with `SplitAllJoin` and `JoinSplitAll`, splitting undoes joining |
| JavaText.DropTrailingEmpty | database/src/main/java/com/powerupsoftwareengineering/datastore/common/database/typehandler/StringListTypeHandler.java:94 | `split` with limit 0 keeps a prefix of the pieces and drops exactly the empty pieces at the end |
| JavaText.JoinSplitAll | database/src/main/java/com/powerupsoftwareengineering/datastore/common/database/typehandler/StringListTypeHandler.java:94 | joining the pieces of a split with the same separator gives back the original text |
| JavaText.SplitAllJoin | database/src/main/java/com/powerupsoftwareengineering/datastore/common/database/typehandler/StringListTypeHandler.java:53-60 | splitting a join of separator-free pieces gives back the pieces |
| JavaText.SplitJoin | database/src/main/java/com/powerupsoftwareengineering/datastore/common/database/typehandler/StringListTypeHandler.java:94 | Java's `split` of a non-empty join of comma-free pieces gives back the pieces, less the empty ones at the end |
| JavaText.JoinIsEmpty | database/src/main/java/com/powerupsoftwareengineering/datastore/common/database/typehandler/IntegerListTypeHandler.java:53 | a join is empty exactly when there is nothing to join or one empty piece |
| JavaText.JoinHasSeparator | database/src/main/java/com/powerupsoftwareengineering/datastore/common/database/typehandler/IntegerListTypeHandler.java:53 | a join of two or more pieces contains the separator |
| JavaText.JoinCons | database/src/main/java/com/powerupsoftwareengineering/datastore/common/database/typehandler/IntegerListTypeHandler.java:53 | a join with one more piece at the front is that piece, the separator, and the previous join |
| JavaText.JoinSnoc | database/src/main/java/com/powerupsoftwareengineering/datastore/common/database/typehandler/StringListTypeHandler.java:56-58 | a join with one more piece at the end is the previous join, the separator, and that piece |
| JavaText.DropTrailingEmptyKeeps | database/src/main/java/com/powerupsoftwareengineering/datastore/common/database/typehandler/StringListTypeHandler.java:94 | nothing is dropped exactly when the last piece is non-empty |
| JavaText.SplitOfCommaFree | database/src/main/java/com/powerupsoftwareengineering/datastore/common/database/typehandler/StringListTypeHandler.java:94 | a non-empty text without commas splits to itself alone |
| JavaText.NotBlankImpliesNotEmpty | database/src/main/java/com/powerup/datastore/common/database/typehandler/StringListTypeHandler.java:75 | the older tree's blank guard admits only texts the newer tree's emptiness guard admits |
| JavaText.GuardsDisagreeOnlyOnWhitespace | database/src/main/java/com/powerup/datastore/common/database/typehandler/StringListTypeHandler.java:75 | the two guards disagree exactly on non-empty whitespace-only text |
| JavaText.CommaIsNotBlank | database/src/main/java/com/powerup/datastore/common/database/typehandler/StringListTypeHandler.java:75 | a text containing a comma is never blank |
| JavaInteger.ValueOf | database/src/main/java/com/powerupsoftwareengineering/datastore/common/database/typehandler/IntegerListTypeHandler.java:53 | `String.valueOf(int)` is non-empty, comma-free, and starts with a minus sign exactly for negative values |
| JavaInteger.NatToString | database/src/main/java/com/powerupsoftwareengineering/datastore/common/database/typehandler/IntegerListTypeHandler.java:53 | the decimal text is all digits, denotes the number, and has no leading zero |
| JavaInteger.ParseInt | database/src/main/java/com/powerupsoftwareengineering/datastore/common/database/typehandler/IntegerListTypeHandler.java:88 | `Integer.parseInt` accepts only an optional sign followed by one or more digits, so a lone `+` or `-` is rejected |
| JavaInteger.ParseIntValueOf | database/src/main/java/com/powerupsoftwareengineering/datastore/common/database/typehandler/IntegerListTypeHandler.java:88 | parsing the text `String.valueOf` wrote gives back the same `int` |
| JavaInteger.ParseIntRejectsStrayCharacter | database/src/main/java/com/powerupsoftwareengineering/datastore/common/database/typehandler/IntegerListTypeHandler.java:87-91 | a piece with a character that is neither a digit nor a leading sign is rejected (and then skipped) |
| JavaInteger.ParseIntRejectsLongDigits | database/src/main/java/com/powerupsoftwareengineering/datastore/common/database/typehandler/IntegerListTypeHandler.java:87-91 | eleven or more significant digits exceed the 32-bit range and are rejected |
| JavaInteger.ParseIntExamples | database/src/main/java/com/powerupsoftwareengineering/datastore/common/database/typehandler/IntegerListTypeHandler.java:88 | `+7`, `-7` and `007` parse to 7, -7 and 7; `-`, `+`, the empty text and ` 2` are rejected |
| JavaUuid.ToString | database/src/main/java/com/powerupsoftwareengineering/datastore/common/database/typehandler/UuidListTypeHandler.java:51 | `UUID.toString` is 36 characters long and contains no comma |
| JavaUuid.FromString | database/src/main/java/com/powerupsoftwareengineering/datastore/common/database/typehandler/UuidListTypeHandler.java:85 | `UUID.fromString` succeeds exactly on the dashed 8-4-4-4-12 hexadecimal form |
| JavaUuid.FromStringToString | database/src/main/java/com/powerupsoftwareengineering/datastore/common/database/typehandler/UuidListTypeHandler.java:85 | reading back the text `toString` wrote gives the same UUID |
| JavaUuid.ToStringInjective | database/src/main/java/com/powerupsoftwareengineering/datastore/common/database/typehandler/UuidListTypeHandler.java:51 | distinct UUIDs have distinct texts |
| JavaUuid.BlankIsNotUuid | database/src/main/java/com/powerupsoftwareengineering/datastore/common/database/typehandler/UuidListTypeHandler.java:83-85 | empty or whitespace-only text is never a UUID |
| StringListTypeHandler.Escape | database/src/main/java/com/powerupsoftwareengineering/datastore/common/database/typehandler/StringListTypeHandler.java:55 | an escaped element contains no comma, and it is empty exactly when the element is |
| StringListTypeHandler.EscapeCommaFree | database/src/main/java/com/powerupsoftwareengineering/datastore/common/database/typehandler/StringListTypeHandler.java:55 | an element without commas is written unchanged |
| StringListTypeHandler.UnescapeEscape | database/src/main/java/com/powerupsoftwareengineering/datastore/common/database/typehandler/StringListTypeHandler.java:95 | unescaping an escaped element gives it back exactly when it did not contain `%;` |
| StringListTypeHandler.UnescapeEscapeIsUnescape | database/src/main/java/com/powerupsoftwareengineering/datastore/common/database/typehandler/StringListTypeHandler.java:95 | an element is read back as `replace("%;", ",")` of the element itself: its commas come back, and every `%;` it held becomes a comma too |
| StringListTypeHandler.ReadBackIsUnescaped | database/src/main/java/com/powerupsoftwareengineering/datastore/common/database/typehandler/StringListTypeHandler.java:49-101 | newer tree: a list with non-empty first and last elements is read back element by element as each element with `%;` replaced by a comma |
| StringListTypeHandler.UnescapeHasNoEscape | database/src/main/java/com/powerupsoftwareengineering/datastore/common/database/typehandler/StringListTypeHandler.java:95 | an unescaped piece never contains `%;` |
| StringListTypeHandler.EscapeIsNotEscaped | database/src/main/java/com/powerupsoftwareengineering/datastore/common/database/typehandler/StringListTypeHandler.java:55 | the element `%;` is read back as `,`, because the escape is itself not escaped |
| StringListTypeHandler.DropLeadingEmpty | database/src/main/java/com/powerupsoftwareengineering/datastore/common/database/typehandler/StringListTypeHandler.java:53-60 | the builder writes a suffix of the list, dropping exactly the leading empty elements, because the separator test looks at the text so far |
| StringListTypeHandler.EncodeSnoc | database/src/main/java/com/powerupsoftwareengineering/datastore/common/database/typehandler/StringListTypeHandler.java:53-60 | each element is appended with a separator exactly when the text so far is non-empty |
| StringListTypeHandler.BuildContent | database/src/main/java/com/powerupsoftwareengineering/datastore/common/database/typehandler/StringListTypeHandler.java:52-60 | the builder loop produces the text `Encode` describes |
| StringListTypeHandler.SetParameter | database/src/main/java/com/powerupsoftwareengineering/datastore/common/database/typehandler/StringListTypeHandler.java:49-65 | a null list is written as null and any other list as its text |
| StringListTypeHandler.ConvertStringToStringList | database/src/main/java/com/powerupsoftwareengineering/datastore/common/database/typehandler/StringListTypeHandler.java:91-101 | the decoding loop gives exactly `Decode` under the newer tree's emptiness guard (the older tree's blank guard at StringListTypeHandler.java line 75 is the other `Check`) |
| StringListTypeHandler.GetResult | database/src/main/java/com/powerupsoftwareengineering/datastore/common/database/typehandler/StringListTypeHandler.java:67-89 | a null column reads as null and any other column as its decoded list |
| StringListTypeHandler.LeadingEmptyElementsVanish | database/src/main/java/com/powerupsoftwareengineering/datastore/common/database/typehandler/StringListTypeHandler.java:54 | `["", "b"]` is written as `b`; `[""]` and `[]` are both written as the empty text |
| StringListTypeHandler.EncodeCommasAreSeparators | database/src/main/java/com/powerupsoftwareengineering/datastore/common/database/typehandler/StringListTypeHandler.java:53-60 | every comma in the column text is a separator between escaped elements |
| StringListTypeHandler.DecodeEncode | database/src/main/java/com/powerupsoftwareengineering/datastore/common/database/typehandler/StringListTypeHandler.java:91-101 | reading a written list gives the unescaped pieces, less the empty pieces at the end |
| StringListTypeHandler.RoundTrip | database/src/main/java/com/powerupsoftwareengineering/datastore/common/database/typehandler/StringListTypeHandler.java:49-101 | newer tree: a list reads back as itself exactly when no element contains `%;` and the list is empty or has a non-empty first and last element |
| StringListTypeHandler.RoundTripIf | database/src/main/java/com/powerupsoftwareengineering/datastore/common/database/typehandler/StringListTypeHandler.java:49-101 | the lists `RoundTrips` admits read back unchanged |
| StringListTypeHandler.RoundTripOnlyIf | database/src/main/java/com/powerupsoftwareengineering/datastore/common/database/typehandler/StringListTypeHandler.java:49-101 | a list that reads back unchanged is one `RoundTrips` admits |
| StringListTypeHandler.EscapeBlank | database/src/main/java/com/powerup/datastore/common/database/typehandler/StringListTypeHandler.java:75 | an element whose escape is blank is itself blank and written unchanged |
| StringListTypeHandler.LegacyRoundTrip | database/src/main/java/com/powerup/datastore/common/database/typehandler/StringListTypeHandler.java:32-84 | older tree: a list reads back as itself exactly when the newer tree's condition holds and it is not a single whitespace-only element |
| StringListTypeHandler.ReadWritten | database/src/main/java/com/powerup/datastore/common/database/typehandler/StringListTypeHandler.java:32-84 | a written column is read back as null exactly for a null list, and otherwise as the list exactly when the round-trip condition of the guard holds |
| StringListTypeHandler.EncodePair | database/src/main/java/com/powerup/datastore/common/database/typehandler/StringListTypeHandler.java:36-43 | two comma-free elements, the first non-empty, are written with one comma between them |
| StringListTypeHandler.DecodePair | database/src/main/java/com/powerup/datastore/common/database/typehandler/StringListTypeHandler.java:74-84 | two non-empty elements without commas or `%` are read back from their joined text |
| StringListTypeHandler.TestListEncoded | database/src/main/java/com/powerup/datastore/common/database/typehandler/StringListTypeHandler.java:32-48 | the list `test1`, `test2` is written as `test1,test2` (the older tree's StringListTypeHandlerTest.java line 24) |
| StringListTypeHandler.TestListDecoded | database/src/main/java/com/powerup/datastore/common/database/typehandler/StringListTypeHandler.java:74-84 | the older tree reads `test1,test2` back as the list `test1`, `test2` |
| StringListTypeHandler.CommaInElementRoundTrip | database/src/main/java/com/powerupsoftwareengineering/datastore/common/database/typehandler/StringListTypeHandler.java:55 | an element containing a comma survives the round trip |
| StringListTypeHandler.EmptyColumnReadsEmptyList | database/src/main/java/com/powerupsoftwareengineering/datastore/common/database/typehandler/StringListTypeHandler.java:92-100 | an empty column reads as the empty list under both guards; a whitespace-only column reads as empty in the older tree and as one element in the newer |
| StringListTypeHandler.NullColumn | database/src/main/java/com/powerupsoftwareengineering/datastore/common/database/typehandler/StringListTypeHandler.java:62-72 | a null list is written as null and a null column is read as null |
| IntegerListTypeHandler.Parsed | database/src/main/java/com/powerupsoftwareengineering/datastore/common/database/typehandler/IntegerListTypeHandler.java:87-91 | one piece contributes at most one value, and none exactly when `parseInt` rejects it |
| IntegerListTypeHandler.ParsedPieces | database/src/main/java/com/powerupsoftwareengineering/datastore/common/database/typehandler/IntegerListTypeHandler.java:86-92 | never more values than pieces; one value per piece when every piece parses; none when no piece does |
| IntegerListTypeHandler.ParsedPiecesAppend | database/src/main/java/com/powerupsoftwareengineering/datastore/common/database/typehandler/IntegerListTypeHandler.java:86-92 | the pieces of a concatenation give the values of each part in turn |
| IntegerListTypeHandler.ParsedPiecesAllParse | database/src/main/java/com/powerupsoftwareengineering/datastore/common/database/typehandler/IntegerListTypeHandler.java:86-92 | when every piece parses, the values are exactly the pieces' values in order |
| IntegerListTypeHandler.ConvertStringToIntegerList | database/src/main/java/com/powerupsoftwareengineering/datastore/common/database/typehandler/IntegerListTypeHandler.java:83-95 | the decoding loop, which skips rejected pieces, gives exactly `Decode` |
| IntegerListTypeHandler.GetResult | database/src/main/java/com/powerupsoftwareengineering/datastore/common/database/typehandler/IntegerListTypeHandler.java:59-81 | a null column reads as null and any other column as its decoded list |
| IntegerListTypeHandler.EncodeIsNotBlank | database/src/main/java/com/powerupsoftwareengineering/datastore/common/database/typehandler/IntegerListTypeHandler.java:53 | a non-empty list is written as a text neither guard rejects |
| IntegerListTypeHandler.RoundTrip | database/src/main/java/com/powerupsoftwareengineering/datastore/common/database/typehandler/IntegerListTypeHandler.java:53-95 | every list of `int`s reads back as itself, under either tree's guard |
| IntegerListTypeHandler.ReadWritten | database/src/main/java/com/powerup/datastore/common/database/typehandler/IntegerListTypeHandler.java:32-78 | every column, null included, reads back as it was written |
| IntegerListTypeHandler.GuardsAgree | database/src/main/java/com/powerup/datastore/common/database/typehandler/IntegerListTypeHandler.java:68 | the older tree's blank guard and the newer tree's emptiness guard give the same list for every text |
| IntegerListTypeHandler.DecodeLength | database/src/main/java/com/powerupsoftwareengineering/datastore/common/database/typehandler/IntegerListTypeHandler.java:86-92 | a text never gives more values than it has pieces |
| IntegerListTypeHandler.SkipsMalformedPiece | database/src/main/java/com/powerupsoftwareengineering/datastore/common/database/typehandler/IntegerListTypeHandler.java:87-91 | a malformed piece in the middle is skipped and its neighbours are kept |
| IntegerListTypeHandler.SpaceAfterCommaIsSkipped | database/src/main/java/com/powerupsoftwareengineering/datastore/common/database/typehandler/IntegerListTypeHandler.java:87-91 | the pieces `1` and ` 2` read as the single value 1 |
| IntegerListTypeHandler.EmptyColumnReadsEmptyList | database/src/main/java/com/powerupsoftwareengineering/datastore/common/database/typehandler/IntegerListTypeHandler.java:84-85 | an empty column reads as the empty list, never as null |
| UuidListTypeHandler.ParseAllMeaning | database/src/main/java/com/powerupsoftwareengineering/datastore/common/database/typehandler/UuidListTypeHandler.java:84-86 | the read succeeds exactly when every piece is a UUID text, and then gives one UUID per piece in order; otherwise it fails on the first malformed piece |
| UuidListTypeHandler.ParseAllAppend | database/src/main/java/com/powerupsoftwareengineering/datastore/common/database/typehandler/UuidListTypeHandler.java:84-86 | on a concatenation of pieces the first failure wins; otherwise the lists are joined |
| UuidListTypeHandler.ParseAllFailureSticks | database/src/main/java/com/powerupsoftwareengineering/datastore/common/database/typehandler/UuidListTypeHandler.java:84-86 | once a prefix of the pieces fails, the whole read fails with the same exception |
| UuidListTypeHandler.ParseAllWellFormed | database/src/main/java/com/powerupsoftwareengineering/datastore/common/database/typehandler/UuidListTypeHandler.java:84-86 | when every piece is the text of a UUID, the result is exactly those UUIDs |
| UuidListTypeHandler.ConvertStringToUuidList | database/src/main/java/com/powerupsoftwareengineering/datastore/common/database/typehandler/UuidListTypeHandler.java:81-89 | the decoding loop, which stops at the first malformed piece, gives exactly `Decode` |
| UuidListTypeHandler.GetResult | database/src/main/java/com/powerupsoftwareengineering/datastore/common/database/typehandler/UuidListTypeHandler.java:57-79 | a null column reads as null; any other column reads as its decoded list or fails with the decoding exception |
| UuidListTypeHandler.EncodeIsNotBlank | database/src/main/java/com/powerupsoftwareengineering/datastore/common/database/typehandler/UuidListTypeHandler.java:51 | a non-empty list is written as a text that neither guard rejects |
| UuidListTypeHandler.RoundTrip | database/src/main/java/com/powerupsoftwareengineering/datastore/common/database/typehandler/UuidListTypeHandler.java:51-89 | every list of UUIDs reads back as itself, under either tree's guard |
| UuidListTypeHandler.ReadWritten | database/src/main/java/com/powerup/datastore/common/database/typehandler/UuidListTypeHandler.java:30-72 | every column, null included, reads back as it was written |
| UuidListTypeHandler.DecodeFails | database/src/main/java/com/powerupsoftwareengineering/datastore/common/database/typehandler/UuidListTypeHandler.java:83-86 | a read fails exactly when the guard admits the text and some piece is malformed; the exception is about the first such piece |
| UuidListTypeHandler.GuardsDiffer | database/src/main/java/com/powerup/datastore/common/database/typehandler/UuidListTypeHandler.java:66 | the trees differ exactly on non-empty whitespace-only text: the newer tree fails on it and the older returns the empty list |
| UuidListTypeHandler.TestListEncoded | database/src/main/java/com/powerupsoftwareengineering/datastore/common/database/typehandler/UuidListTypeHandler.java:51 | a two-element list is written as the two texts with one comma between them |
| UuidListTypeHandler.EmptyColumnReadsEmptyList | database/src/main/java/com/powerupsoftwareengineering/datastore/common/database/typehandler/UuidListTypeHandler.java:82-83 | an empty column reads as the empty list, and a null one as null |

## Left out

- JDBC and MyBatis plumbing (`PreparedStatement`, `ResultSet`, `CallableStatement`, `JdbcType`) is left out. A column is modelled as an optional text, and `setParameter` as the optional text it writes.
- `getResult` reads the column twice (once to test for null, once to decode). The model reads it once, so it assumes both reads agree.
- `getResult` has three overloads (by column name, by column index, and on a callable statement), modelled as one function, because they differ only in how the column is read.
- Logging (the integer handler's error log for a skipped piece) is left out, because it has no effect on the result.
- `StringVerificationUtil.isNotEmpty` is modelled as "non-empty"; its source is not part of this model.
- JavaUuid.FromString: accepts only the strict 36-character 8-4-4-4-12 hexadecimal form. Java's lenient parser also accepts texts of other shapes: shorter or unusual group lengths such as `1-2-3-4-5`, and groups with a sign such as `+1-2-3-4-5`. The model therefore rejects some column texts that Java reads, so `UuidListTypeHandler.DecodeFails` and `UuidListTypeHandler.GuardsDiffer` describe the strict parser. No text the writer produces has those shapes, so the round trips are unaffected.
- `Integer.parseInt` is modelled on ASCII digits. Java also accepts other Unicode decimal digits.
- Null elements inside a list are not modelled: list elements are plain values. In Java, a null element makes the string writer throw, because it calls `replace` on it. In the newer tree, the integer and UUID writers (`map(String::valueOf)`, IntegerListTypeHandler.java line 53 and UuidListTypeHandler.java line 51) write a null element as the text `null`; the integer reader then skips that piece, and the UUID reader fails on it. In the older tree, the `StringUtils.join` writers of the integer and UUID handlers write a null element as an empty piece.
- The `builder` field of `ModelObjectParameterGroup` is not modelled, because the save never reads it.
- The `FAILED_TO_*_ERROR_MESSAGE_FORMAT` constants of `CommonDatabaseExecutor` are not modelled, because the executor itself never uses them.
- `saveObject` calls `modelObject()` several times. Because a record accessor always returns the same value, the model reads the candidate once.
- `equals` between model objects is modelled as value equality of the whole object.
- Callbacks are modelled as pure functions of the backend state, so the model says nothing about a callback with hidden side effects of its own.
- `DatabaseExecutor` (the older `com.powerup` tree's executor, beside `CommonDatabaseExecutor`) is not modelled.
- The scalar type handlers for the `java.time` types and UUIDs (`*BaseTypeHandler`, `*TypeHandler`) are not modelled.
- CommonDatabaseExecutor.CommonDatabaseExecutor.GetOpenSqlSession: success or failure of each database step is a nondeterministic choice, since which SQL exception the driver raises is outside the code. The contract says what holds on every outcome, not which outcome occurs. Whether a session is connected and which sessions a factory opened are ghost state kept by the session and factory methods; the JDBC `Connection` and `Statement` objects are not modelled separately, and the role statement is run through the session.
