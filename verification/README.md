# File-mailbox ping/pong IPC, modelled in Dafny

A server and any number of clients talk through one file per server,
`ipc_server_<n>.bin`. The file holds a single fixed-size record: `status`,
`client_id` and a 256-byte NUL-terminated text. Status 0 is FREE, 1 is REQUEST
and 2 is RESPONSE.

- A client waits until the slot is FREE and writes a REQUEST carrying its text.
- The server polls the file. For a valid "ping" it answers with a RESPONSE
  "pong from server #<n> to client #<id>", handing out an id to a client that
  still has id 0. Any other text gets an error RESPONSE.
- The client reads the response, adopts the id if it had none, and puts the
  slot back to FREE.
- Servers number themselves one above the largest number in the directory.
- Clients pick the newest available server automatically.

The model follows the two programs, `server.cpp` and `client.cpp`, member by
member:

- `CStrings`: the C-string and number conversions both programs rely on.
  These are `strlen`, the `strncpy` + terminator idiom for filling the 256-byte
  text, `tolower`, `std::to_string` and `std::stoi` (leading white space, an
  optional sign, at least one digit).
- `Record`: the record, and the outcome rules of `readMessage`/`writeMessage`.
  A read of zero bytes yields the all-zero record, a short read fails, and the
  result of `fsync` is ignored. It also holds the `Poll` oracle: one observation
  per turn of a polling loop.
- `Naming`: the file-name convention, and how each program reads the instance
  number back out of a name.
- `Server`: request validation, instance numbering, opening and initialising
  the mailbox, the reply records, the request-polling loop, and the dispatch
  loop. The dispatch loop is a `ServerSession` class whose fields are the
  server's globals (`nextClientId`, `connectedClients`, `clientCounter`) and
  whose methods update them in place.
- `Discovery`: the client's directory filter, its newest-first sort, the
  availability probe and the automatic choice of a server.
- `Client`: the wait-for-FREE loop, the response loop, one full exchange, the
  liveness probe behind `status`, and a `ClientSession` class. That class holds
  the current file, whether the handle is open and the current id; `connect`,
  `disconnect`, `ping` and the final reset update it.

The OS, the clock, signals and the other process are inputs:

- A directory listing is a `seq<string>`.
- The state of a candidate file is a function from names to `FileProbe`.
- What each `lseek`/`read`/`write` returns is a `ReadOutcome`/`WriteOutcome`.
- Every polling loop is driven by a sequence of `Poll`s:
  - `Stopped` means the `running` flag was found false;
  - `Polled(read, late)` is one read of the record, with `late` telling
    whether the loop's deadline (5000 ms, or 500 ms in the probe) had passed
    at the clock check that follows the read.

Behaviour of the code kept as written:

- An empty file reads as a FREE record.
- A client whose wait loop sees a failed read goes on and sends.
- A failed probe leaves its "ping" REQUEST in the mailbox.
- `connect` with no server available keeps the old file name and id, with the
  handle closed. A later "ping" then fails at the send.
- The server registers any positive id it has not seen, so ids handed out
  later can collide with ids that clients made up.

Server files whose number does not parse are kept in the list. The comparator
then falls back to comparing the names (client.cpp:125-126), and
`Discovery.FindServerFiles` keeps them too.

## Model

| member | source | states |
|---|---|---|
| CStrings.CString | server.cpp:104 | the text of a buffer is a NUL-free prefix of it, followed by a NUL when shorter |
| CStrings.Payload | client.cpp:375-379 | the 256-byte text holds the first min(strlen, 255) characters of the source as its C string, and NUL from there to the end |
| CStrings.PayloadOfText | server.cpp:313-314 | a NUL-free text shorter than 256 characters is read back unchanged from the buffer it was copied into |
| CStrings.IntToString | server.cpp:195 | `std::to_string` gives a non-empty string of digits, with at most a leading '-' |
| CStrings.NatToString | server.cpp:195 | decimal digits with no leading zero |
| CStrings.NatToStringValue | server.cpp:195 | the digits of `std::to_string(n)` have value n |
| CStrings.StoiOfIntToString | server.cpp:137 | `std::stoi` of `std::to_string(n)` gives back n, for every integer |
| CStrings.CLength | server.cpp:104 | `strlen`: the index of the first NUL, or the whole length when there is none, with no NUL before it |
| CStrings.LowerCase | server.cpp:113-115 | the lower-cased text has the same length and each character through `tolower` |
| CStrings.Stoi | client.cpp:122 | `std::stoi` succeeds exactly when, after the white space, a digit follows, or a sign and then a digit; the value is negative only after a '-' |
| CStrings.StoiValue | client.cpp:122 | after white space, an optional '+' or '-' and a run of digits, `std::stoi` gives the value of those digits, negated after '-', whatever follows them |
| CStrings.SkipSpaces | client.cpp:122 | `std::stoi` skips a prefix of white space and stops at the first other character |
| Record.EmptyRecord | client.cpp:60-62 | the zero-filled record is FREE, has client 0 and all-NUL text |
| Record.ReadMessage | client.cpp:50-66 | the read succeeds exactly when the seek worked and the count is 0 or a full record; 0 bytes gives the all-zero record, a full read the stored one |
| Record.WriteMessage | client.cpp:68-80 | the write succeeds exactly when the seek worked and a full record was written, whatever `fsync` returns |
| Record.ResetRecord | client.cpp:430-434 | the FREE reset carries the client's id, and every one of its 256 text bytes is NUL |
| Naming.Find | client.cpp:118 | `find('.')` returns the first '.' or reports there is none |
| Naming.ContainsIff | client.cpp:93 | `find(".bin") != npos` holds exactly when ".bin" occurs at some index |
| Naming.FindFirst | client.cpp:118 | `find('.')` gives the index of a '.' that has none before it |
| Naming.UpToDot | client.cpp:118 | the text up to the first '.' is a prefix with no '.', followed by the '.' when shorter |
| Naming.NumbersOfName | client.cpp:116-123 | the client reads a name's number as `std::stoi` of the text between the prefix and the first '.'; the server (server.cpp:130-137) does the same but skips names with no '.' |
| Naming.FileNameFor | server.cpp:195 | a server's file name is the prefix, the decimal instance number and ".bin" |
| Naming.ClientAndServerAgree | client.cpp:116-119 | on every name that passes the client's filter, the client's and the server's number extraction agree |
| Naming.FileNameRoundTrip | server.cpp:195 | the name a server builds passes the client's filter, and both programs read its instance number back from it |
| Server.FirstNotSpace | server.cpp:107 | the first index not holding space, tab, LF or CR, with all before it white space |
| Server.EndNotSpace | server.cpp:110 | one past the last index not holding white space, with all after it white space |
| Server.ValidPingRequestIff | server.cpp:101-118 | a request is valid exactly when it is "ping" in any letter case with only space, tab, LF and CR around it |
| Server.LowerCaseIsPing | server.cpp:113-117 | lower-casing gives "ping" exactly for the 16 mixed-case spellings |
| Server.ScansStopAt | server.cpp:107-111 | the trimming cuts exactly the word that white space surrounds |
| Server.ValidIsPadded | server.cpp:101-118 | a valid request is a padded ping word |
| Server.PaddedIsValid | server.cpp:101-118 | a padded ping word is a valid request |
| Server.PingIsValid | server.cpp:101-118 | the client's "ping" record passes the server's validation |
| Server.FindMaxServerNumber | server.cpp:121-177 | the result is at least 0, at least every number read from a name with a '.', and 0 or one of those numbers |
| Server.NewServerInstance | server.cpp:190-195 | the instance is one above the largest number present, so its name is new in the directory, passes the client's filter and reads back as the instance |
| Server.StartMailbox | server.cpp:199-222 | the server starts exactly when the file opened and is a full record long or the all-zero initial write succeeded; that write happens exactly for short files, and what it writes is the all-zero record (FREE, client 0, 256 NUL bytes) |
| Server.ShutdownRecord | server.cpp:310-315 | the shutdown record is FREE with client 0 |
| Server.ShutdownText | server.cpp:313-314 | its text reads back as "SERVER_SHUTDOWN" |
| Server.ErrorReply | server.cpp:252-255 | an invalid request is answered with RESPONSE, the caller's id and the error text, with NUL in every byte after the text |
| Server.PongReply | server.cpp:290-296 | a valid request is answered with RESPONSE, the id and the pong text cut to 255 characters |
| Server.PongTextExample | server.cpp:291-292 | instance 1 answering client 1 sends "pong from server #1 to client #1" |
| Server.WaitForRequest | server.cpp:229-241 | the loop returns the first REQUEST it reads; failed reads and other statuses are skipped; with no request the running flag was found false; the request it returns is the first of the requests the polls hand over, and with none there are none |
| Server.Answers | server.cpp:226-296 | the k-th record the loop writes is the answer to the k-th request, given the fresh ids handed out before it |
| Server.IdAfterGrows | server.cpp:266-270 | the next fresh id never goes down, and every valid id-0 request moves it up |
| Server.FirstContactsGetDistinctIds | server.cpp:266-270 | two valid requests with id 0 are answered with different ids, in increasing order, none below the starting id |
| Server.ServerSession.constructor | server.cpp:190-195 | a session starts with the instance number one above the existing ones, an empty registry and next id 1 |
| Server.ServerSession.Register | server.cpp:261-280 | id 0 gets the next fresh id, which is registered; an unknown positive id is registered; the counter stays the size of the registry |
| Server.ServerSession.Dispatch | server.cpp:245-296 | an invalid request gets the error reply and changes nothing; a valid one gets the pong reply with the new or presented id; the fresh ids stay 1, 2, 3, …; the reply and the new registry are those of `Answer` and `Registered` |
| Server.ServerSession.ServeOne | server.cpp:226-300 | one turn reads the next request from the polls and writes its answer: the error reply with the registry unchanged for an invalid text, the pong with the next fresh id (which is registered) for id 0, the pong with the presented id otherwise; or it ends unchanged at a stopped poll or the end of the polls, with no request left |
| Server.ServerSession.Serve | server.cpp:226-315 | the records passed to `writeMessage` are one answer per request handed over before the flag is found false, in order, each as `Answer` gives it with the fresh ids handed out before it, and then the shutdown record; the next id and the registry end as the requests leave them |
| Server.FirstContactExample | server.cpp:266-296 | a first "ping" to a fresh server gets id 1 and "pong from server #1 to client #1", with one client counted |
| Server.ReusedIdExample | server.cpp:266-279 | a client presenting id 1 and a new client both end up with id 1, and only one client is counted |
| Discovery.ServerFileNames | client.cpp:90-96 | the filter keeps exactly the names that start with "ipc_server_" and contain ".bin" |
| Discovery.LexLessIsStrictTotal | client.cpp:126 | the fallback `a < b` is irreflexive, asymmetric, transitive and total on different names |
| Discovery.LexLessAfterPrefix | client.cpp:126 | names with a common prefix compare as what follows it |
| Discovery.NumberAfterPrefix | client.cpp:116-123 | a name's number is `std::stoi` of the text before the first '.' after the prefix |
| Discovery.NewerFirstIsNotTransitive | client.cpp:115-127 | the comparator runs in a circle on "ipc_server_7.bin", "ipc_server_+5.bin", "ipc_server_-.bin", so it is not a strict weak order |
| Discovery.InsertBy | client.cpp:115-128 | inserting adds exactly one copy of the name |
| Discovery.SortBy | client.cpp:115-128 | sorting is a permutation |
| Discovery.SortNewestFirst | client.cpp:115-128 | the newest-first sort is a permutation |
| Discovery.InsertKeepsOrder | client.cpp:115-128 | insertion by a comparator that orders by key keeps a key-descending list descending |
| Discovery.SortKeepsOrder | client.cpp:115-128 | sorting by such a comparator yields a key-descending list |
| Discovery.NewerFirstAgrees | client.cpp:121-124 | on two numbered names the comparator puts the larger number first |
| Discovery.SortNewestFirstOrders | client.cpp:115-128 | when every name has a number, the sorted list is in descending order of number |
| Discovery.FirstFoundIsLargest | client.cpp:172-173 | in a descending list, the first element with a property has the largest key among those with it |
| Discovery.FindServerFiles | client.cpp:83-131 | the result is a permutation of the filtered names, and newest first whenever every name has a number |
| Discovery.CheckServerAvailability | client.cpp:134-149 | a server is available exactly when the file opens, the read succeeds, and the record is empty or FREE or RESPONSE |
| Discovery.CollectAvailable | client.cpp:156-160 | the kept names are exactly the available candidates, and the first kept is the first available one |
| Discovery.AutoConnect | client.cpp:152-174 | "" exactly when no filtered name is available; otherwise the first available name in sorted order, which has the highest number when all names have one |
| Client.WaitForFree | client.cpp:351-372 | the loop ends after five busy reads, on a stop, or on the read that fails or sees FREE; five busy reads happen exactly when the slot stays busy |
| Client.StopDoesNotWait | client.cpp:391-413 | the poll that ends the response loop is not one that keeps it waiting |
| Client.AwaitedIsUnique | client.cpp:391-413 | the ending of the response loop is determined by the polls |
| Client.AwaitResponse | client.cpp:386-413 | the loop reads until a RESPONSE, a failed read, the deadline or a stop; every poll before the last kept it waiting |
| Client.RequestRecord | client.cpp:375-379 | the request is REQUEST with the client's id and the command cut to 255 characters |
| Client.Exchange | client.cpp:350-434 | busy exactly when the slot stays busy, with no write; the send fails exactly when the write fails, after the request alone; otherwise request then FREE reset, whatever ended the wait; the id changes only from 0 to a response's positive id |
| Client.Probe | client.cpp:177-224 | a probe writes only after reading FREE, and first the "ping" request; it is connected exactly when a RESPONSE arrives, and only then resets the slot |
| Client.OnClosedHandle | client.cpp:51-53 | on a closed handle no poll sees the slot busy, and stops stay stops |
| Client.ClientSession.constructor | client.cpp:292-306 | at start-up the client holds open the first available server in newest-first order (the highest-numbered available one when every name has a number), or nothing when none is available or the open fails |
| Client.ClientSession.Connect | client.cpp:313-333 | the handle is closed; the server chosen is the first available one in newest-first order (the highest-numbered available one when every name has a number), and it replaces the file and resets the id, even when the open fails; with none, file and id stay |
| Client.ClientSession.Disconnect | client.cpp:335-344 | the file is cleared; the id is reset only if a handle was open |
| Client.ClientSession.Ping | client.cpp:346-434 | one exchange on the session: a closed handle always fails the send, and a failed send attempts only the request record; with the handle open the wait for FREE and the response loop end as the polls decide; a positive id in a response is adopted exactly when the session had id 0 |
| Client.ClientSession.Shutdown | client.cpp:438-445 | with a handle open, the final write is the FREE reset with the client's id |

## Left out

- The OS calls are outside the model: `opendir`/`readdir`, `FindFirstFile`,
  `open`, `lseek`, `read`, `write`, `fsync` and `close`. Their results are
  inputs. The Windows branches are the same loops over a listing.
- The server opens its file with `O_EXCL` and falls back to a plain `open`.
  The model only says whether the file opened in the end. `StartMailbox` takes
  the file size that `lseek(SEEK_END)` reported as an input.
- `cleanupServerFile` (the `unlink` at shutdown) is left out. It changes
  nothing in the record.
- Signals and the `running` flag are modelled as `Stopped` polls. The server's
  extra `if (!running) break` right after reading a request is not a separate
  observation. A signal arriving between that read and the check, which would
  leave the request unanswered, is not modelled.
- The clocks and sleeps are left out. A deadline check is the `late` flag of
  the poll it follows.
- Logging and console output are left out, including the text of the response
  that the client prints.
- `getline` and the command dispatch of `getInputFromUser` are left out. The
  session methods stand for the commands it returns. `showConnectionStatus` is
  output around `Probe`.
- The mutex `clientMutex` and the atomicity of `clientCounter` are left out:
  the server is single-threaded. The counter itself is
  `Server.ServerSession.clientCounter`, kept equal to the number of registered
  clients. Races between two processes writing the same slot (a lost
  update) are outside a one-process model; the other process is the oracle.
- The record's byte layout is left out. A record read is the record last
  stored (`ReadOutcome.stored`), not a decoding of bytes. Characters are
  `char`, not bytes with a sign.
- CStrings.Stoi: does not model the out-of-range exception for values beyond
  `int`. Numbers are unbounded.
- Server.ServerSession.Register: does not model 32-bit overflow of
  `nextClientId`, client ids or instance numbers.
- Discovery.SortNewestFirst: `std::sort` leaves the order of equal numbers to
  the library, and with names that have no number the comparator is not a
  strict weak order (`Discovery.NewerFirstIsNotTransitive`). The model sorts
  by insertion with the same comparator.
  It promises only a permutation, and the descending order when every name has
  a number.
- The `nullptr` guard of `isValidPingRequest` is left out. It cannot fire: the
  server always passes its own record's buffer.
- A text field with no NUL in its 256 bytes makes `std::string(text)` read
  past the buffer. The model reads it as the whole buffer.
