# myredis core in Dafny

A model of the sequential core of `myredis`, a small Redis-like key-value
server written in Rust, with proofs of what that core promises.

- **Command parser** (`Parser.dfy`, src/parser.rs): a request line is split
  on whitespace. The lower-cased first token selects `set` (exactly two more
  tokens) or `get` (exactly one more token). The result is a `Statement` or one
  of the three `ParseError`s. `Parse` is a total function of the line.
  - Lemmas cover blank input.
  - They cover keyword case-insensitivity and both arities with their exact error messages.
  - They cover unknown commands and the shape of returned keys and values.
  - They show the result depends on the tokens only, not on the whitespace around them.
  - Each unit test of the source file is restated as a lemma.
- **Key-value store** (`Database.dfy`, src/database.rs): the class `Database`
  holds a `map` from text keys to `TypedValue`s (`Types.dfy`). `Set`
  inserts or replaces and `Get` looks a key up. Client methods prove:
  - a new store is empty;
  - a value just set is read back;
  - the last write wins;
  - other keys are untouched;
  - keys are case-sensitive.
- **Connection registry** (`Server.dfy`, src/server.rs): the class
  `Connections` holds the accepted sockets in admission order.
  - A socket read is I/O. Each poll is therefore given the outcome each
    connection's read would have, as a sequence of `LineRead`
    (`GetNextLineResult`).
  - `GetNewRequests` is the source's two loops. The first scans for the
    first request line and queues closed positions. The second removes those
    positions in ascending order with `Vec::remove`.
  - Each loop is a method with invariants, proved against specification
    functions (`FirstRequest`, `ClosedIndices`, `RemoveEach`).
  - Those functions are related to the intended result `Without`, which keeps
    every connection not found closed, in order. The model proves that
    ascending removal meets that intent for at most one closed connection and,
    for distinct connections (as sockets always are), never for two or more
    (see Findings).
  - The corrected removal, from the last queued index to the first, is proved
    to equal `Without`.

`Wrappers.dfy` holds the `Option` and `Result` types.

## Model

| member | source | states |
|---|---|---|
| Parser.SplitWhitespace | src/parser.rs:22 | every token `split_whitespace` yields is non-empty and free of whitespace |
| Parser.Lowercase | src/parser.rs:25 | lower-casing keeps the length and maps each character through ASCII lower-casing |
| Parser.DecimalString | src/parser.rs:18 | the `{}` rendering of the count is a non-empty digit string with no leading zero |
| Parser.DecimalRoundTrip | src/parser.rs:18 | reading the rendered digits back gives the number rendered |
| Parser.InvalidArgCountMessage | src/parser.rs:17-19 | the arity error is `InvalidStatement` whose text is "Expecting ", the decimal digits of the expected count, then " arguments" |
| Parser.InvalidArgCountExamples | src/parser.rs:17-19 | the two messages produced are "Expecting 2 arguments" and "Expecting 1 arguments" (plural in both) |
| Parser.SplitEmptyIffBlank | src/parser.rs:22-23 | a line yields no token if and only if it is empty or all whitespace |
| Parser.SplitSkipsLeadingBlank | src/parser.rs:22 | leading whitespace does not change the tokens |
| Parser.SplitSkipsTrailingBlank | src/parser.rs:22 | trailing whitespace does not change the tokens |
| Parser.SplitWordThen | src/parser.rs:22 | a word followed by whitespace or the end of the line is the first token, and the rest is split on its own |
| Parser.SplitWordGap | src/parser.rs:22 | a word followed by a non-empty whitespace run is the first token of what follows |
| Parser.SplitLastWord | src/parser.rs:22 | a word with only trailing whitespace after it is the one token |
| Parser.SplitTwoWords | src/parser.rs:22 | two words separated by whitespace, with blanks around them, split into exactly those two tokens |
| Parser.SplitThreeWords | src/parser.rs:22 | three words separated by whitespace, with blanks around them, split into exactly those three tokens |
| Parser.SplitJoined | src/parser.rs:22 | round trip: laying tokens out with any leading blank and any non-empty whitespace gaps and splitting again gives back the same tokens |
| Parser.ConcatSplitIsNonWhitespace | src/parser.rs:22 | the tokens, glued together, are exactly the line's non-whitespace characters in order (splitting loses nothing but whitespace) |
| Parser.ParseEmptyIffBlank | src/parser.rs:22-23 | `parse` gives `EmptyStatement` if and only if the line is empty or all whitespace |
| Parser.LowerAsciiIs | src/parser.rs:25 | a character lower-cases to a lower-case letter if and only if it is that letter or its capital |
| Parser.SetSpellings | src/parser.rs:25-26 | a token selects `set` if and only if it is one of the eight case variants of "set" |
| Parser.GetSpellings | src/parser.rs:25 | a token selects `get` if and only if it is one of the eight case variants of "get" |
| Parser.KeywordCaseInsensitive | src/parser.rs:25 | two spellings of the keyword that lower-case alike give the same result on the same line |
| Parser.ParseSetArity | src/parser.rs:26-32 | after `set`, exactly two tokens give `Set` with those tokens verbatim; any other count gives "Expecting 2 arguments" |
| Parser.ParseGetArity | src/parser.rs:33-38 | after `get`, exactly one token gives `Get` with that token verbatim; any other count gives "Expecting 1 arguments" |
| Parser.ParseUnknownIff | src/parser.rs:39 | `UnknownCommand` occurs if and only if there is a first token that lower-cases to neither "set" nor "get" |
| Parser.ParsedFieldsAreWords | src/parser.rs:27-34 | every key and value returned is non-empty and contains no whitespace |
| Parser.ParseSetLine | src/parser.rs:26-32 | any spelling of set, then key and value separated by whitespace, with any blanks around them, parses to `Set(key, value)` |
| Parser.ParseGetLine | src/parser.rs:33-38 | any spelling of get, then a key, with any blanks around, parses to `Get(key)` |
| Parser.ParseDependsOnlyOnTokens | src/parser.rs:21-41 | two lines with the same tokens parse to the same result |
| Parser.ParseIgnoresSurroundingBlanks | src/parser.rs:22 | surrounding a line with whitespace does not change its parse |
| Parser.ParseIgnoresSpacing | src/parser.rs:22 | any non-empty whitespace runs between tokens, and any leading or trailing blanks, parse as the single-space layout does |
| Parser.ParseSetFooBar | src/parser.rs:47-56 | "SET foo bar" parses to `Set("foo", "bar")` |
| Parser.ParseSetSpamEggs | src/parser.rs:57-66 | "SET spam eggs" parses to `Set("spam", "eggs")` |
| Parser.ParseSetMixedCase | src/parser.rs:88-97 | "Set foo bar" parses to `Set("foo", "bar")` |
| Parser.ParseSetLeadingSpace | src/parser.rs:98-107 | " set foo bar" parses to `Set("foo", "bar")` |
| Parser.ParseSetTrailingSpace | src/parser.rs:108-117 | "set foo bar " parses to `Set("foo", "bar")` |
| Parser.ParseSetNoArgs | src/parser.rs:118-124 | "set" is an `InvalidStatement` ("Expecting 2 arguments") |
| Parser.ParseSetOneArg | src/parser.rs:125-138 | "set foo" is an `InvalidStatement` ("Expecting 2 arguments") |
| Parser.ParseGetFoo | src/parser.rs:139-147 | "GET foo" parses to `Get("foo")` |
| Parser.ParseGetSpam | src/parser.rs:148-156 | "GET spam" parses to `Get("spam")` |
| Parser.ParseEmptyLine | src/parser.rs:157-160 | "" is an `EmptyStatement` |
| Database.Database.constructor | src/database.rs:12-16 | a new store maps no key |
| Database.Database.Set | src/database.rs:17-19 | the key now maps to the value; every other key keeps its presence and its value |
| Database.Database.Get | src/database.rs:20-22 | `Some` exactly when the key is stored, holding its value; the store is not modified |
| Database.FreshStoreIsEmpty | src/database.rs:12-22 | a lookup in a new store finds nothing, for every key |
| Database.SetThenGet | src/database.rs:17-22 | on any store, a lookup right after setting a key returns the value set; the key now maps to it |
| Database.OverwriteThenGet | src/database.rs:17-22 | on any store, after two writes to one key the lookup returns the second value, and the first write leaves no trace |
| Database.SetLeavesOtherKeys | src/database.rs:17-22 | a lookup of another key gives the same result before and after a write |
| Database.InsertAndGetExample | src/database.rs:29-37 | after setting "foo" to `Text("bar")`, "foo" reads back as `Text("bar")` and "FOO" finds nothing |
| Server.FirstRequest | src/server.rs:45-57 | the lowest position whose read is a non-empty line, with no such line before it; `None` exactly when no read is one |
| Server.ClosedIndices | src/server.rs:45-53 | the positions queued for removal are strictly ascending, in range, and are exactly the positions whose read reported a closed socket |
| Server.RemoveEach | src/server.rs:59-61 | successive `Vec::remove` shortens the list by one per index |
| Server.RemoveEachFromLast | src/server.rs:59-61 | removal from the last queued index shortens the list by one per index |
| Server.ScanForRequest | src/server.rs:45-58 | the scanning loop returns the first request position; when there is none, it has queued exactly the closed positions in ascending order |
| Server.FirstRequestAt | src/server.rs:45-57 | a request at a position with no request before it is the first request |
| Server.Connections.constructor | src/server.rs:33-35 | a new registry holds no connection |
| Server.Connections.Push | src/server.rs:36-39 | the new connection goes last and the earlier ones keep their positions |
| Server.Connections.RemoveInOrder | src/server.rs:59-61 | the reaping loop as written succeeds exactly when ascending `Vec::remove` stays in range, and leaves its result |
| Server.Connections.RemoveFromLast | src/server.rs:59-61 | the reaping loop run from the last index succeeds exactly when each removal is in range, and leaves its result |
| Server.Connections.GetNewRequests | src/server.rs:40-63 | a request comes back with the lowest index whose line is non-empty, and the list is unchanged, closed connections included; with no request, the result is the ascending removal of the closed positions, or the panic when it runs out of range |
| Server.Connections.GetNewRequestsReapingFromLast | src/server.rs:40-63 | with reaping from the last index, a pass with no request always ends in `None` and leaves exactly the connections not found closed, in order |
| Server.Connections.WriteToSocket | src/server.rs:64-69 | fails if and only if the index is not below the number of connections; the list is not changed |
| Server.RemoveEachKeepsBelow | src/server.rs:59-61 | `Vec::remove` at positions above `p` leaves the element at `p` where it was |
| Server.RemoveEachInRangeIff | src/server.rs:59-61 | for strictly ascending indices, ascending `Vec::remove` avoids the panic if and only if every index plus the number of removals before it is below the original length |
| Server.RemoveFromLastIsWithout | src/server.rs:59-61 | removing strictly ascending in-range indices from the last to the first removes exactly those positions and keeps the rest in order |
| Server.AscendingReapCorrectForAtMostOne | src/server.rs:59-61 | with at most one closed connection, ascending removal gives the intended result |
| Server.AscendingReapKeepsSecond | src/server.rs:59-61 | ascending removal that stays in range keeps the connection at the second queued position |
| Server.WithoutExcludesDead | src/server.rs:59-61 | with distinct connections, the intended result contains no connection found closed |
| Server.AscendingReapWrongForTwoOrMore | src/server.rs:59-61 | with two or more closed connections, ascending removal never gives the intended result |
| Server.AscendingReapDropsLiveConnection | src/server.rs:59-61 | with closed connections at positions 0 and 1 of three, ascending removal keeps position 1 and drops the open connection at 2 |
| Server.AscendingReapPanics | src/server.rs:59-61 | with closed connections at positions 1 and 2 of three, the second removal is out of range |
| Server.ClosedSecondOfThree | src/server.rs:45-53 | reads (would-block, closed, would-block) give no request and queue position 1 |
| Server.RequestSkipsReaping | src/server.rs:55-61 | a request found after a closed connection returns at once, and the closed connection stays |
| Server.SingleClosedIsReaped | src/server.rs:45-62 | one closed connection and no request: it is removed, the others keep their order, and the result is `None` |

## Left out

- `TypedValue::from_str` (src/types.rs) is left out. It is Rust's `f64` parsing. `TypedValue.Numeric` holds an uninterpreted 64-bit pattern, and the store never looks inside a value.
- `serve` is left out: the listener bind, the accept loop, `set_nonblocking`, the 10 ms sleep when idle, and the panics on I/O errors. This is network plumbing and timing.
- `_get_next_line` is left out: `BufReader::read_line`, and the buffer created and dropped on every call, which can lose buffered bytes. The panic on any other I/O error (src/server.rs:27), which can happen inside `get_new_requests`, is not modelled either: `Poll` models only the `Vec::remove` panic. Each read is only its three-way outcome, given as input to the poll.
- Server.Connections.WriteToSocket: models only the index check. The `write_all` of the message and the newline, and the panic if it fails, are I/O and are not modelled.
- Server.Connections.Push: the socket is a handle; `set_nonblocking(true).unwrap()` is not modelled.
- Server.ScanForRequest: the positions queued before an early return are not stated, because `get_new_requests` discards them.
- `parser::execute` and `parser::do_command` are not part of this model. They are called from src/server.rs and src/main.rs but are not defined in src/parser.rs, so nothing executes a parsed `Statement` against the store here.
- src/main.rs is a demo entry point and is not part of this model. The commented-out quoted-string tests in src/parser.rs are not implemented behaviour.
- Parser.Lowercase: lower-cases ASCII letters only, where Rust's `to_lowercase` covers all of Unicode. Only ASCII letters lower-case to the letters of "set" and "get", so which commands are recognised is unaffected.
- A read outcome `Text("")` is allowed as input. A real zero-length read reports a closed socket instead. The source's `!= ""` guard treats such a line as neither a request nor a closed connection, and the model does the same.
- The `get` arity message is "Expecting 1 arguments": the format string at src/parser.rs:18 is always plural, whatever the count.
- The `set` value stays the raw token: `Statement::Set` holds a `String` (src/parser.rs:6, 28-31), and `parse` does no `TypedValue` conversion.
- Whitespace is every character for which `char::is_whitespace` holds (the Unicode White_Space set), because src/parser.rs:22 uses `split_whitespace`.

## Findings

| source | as written | input that shows it | evidently intended | confidence | as-written member | corrected member |
|---|---|---|---|---|---|---|
| src/server.rs:59-61 | the closed positions are removed with `Vec::remove` in ascending order. Each removal shifts the later connections down, so a later queued index names the wrong connection. | three connections, closed at positions 0 and 1: the open connection at position 2 is dropped, and the closed one at 1 is kept | remove exactly the connections found closed, keeping the others in order (for example, remove from the last index to the first) | not executed | Server.AscendingReapDropsLiveConnection | Server.RemoveFromLastIsWithout |
| src/server.rs:59-61 | the same ascending removal can run past the end of the shortened list | three connections, closed at positions 1 and 2: after removing 1, index 2 is out of range and `Vec::remove` panics | reaping never panics | not executed | Server.AscendingReapPanics | Server.Connections.GetNewRequestsReapingFromLast |
