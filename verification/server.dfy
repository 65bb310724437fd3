/** The server: request validation, instance numbering, mailbox start-up and
    shutdown records, and the dispatch loop over an explicit session object. */
module Server {
  import opened Options
  import opened CStrings
  import opened Record
  import opened Naming

  // ---------------------------------------------------------------------------
  // Request validation (isValidPingRequest)

  /** The characters `find_first_not_of(" \t\n\r")` skips. */
  predicate IsTrimSpace(c: char) {
    c == ' ' || c == '\t' || c == '\n' || c == '\r'
  }

  predicate AllTrimSpace(s: string) {
    forall i :: 0 <= i < |s| ==> IsTrimSpace(s[i])
  }

  /** `find_first_not_of(" \t\n\r", from)`: the first index at or after
      `from` holding another character, or `|s|` for `npos`. */
  function FirstNotSpace(s: string, from: nat): (k: nat)
    requires from <= |s|
    ensures from <= k <= |s|
    ensures forall i :: from <= i < k ==> IsTrimSpace(s[i])
    ensures k < |s| ==> !IsTrimSpace(s[k])
    decreases |s| - from
  {
    if from == |s| || !IsTrimSpace(s[from]) then from else FirstNotSpace(s, from + 1)
  }

  /** `find_last_not_of(" \t\n\r")`, searching below `end`: one past the
      last index holding another character, or 0 when there is none. */
  function EndNotSpace(s: string, end: nat): (k: nat)
    requires end <= |s|
    ensures k <= end
    ensures forall i :: k <= i < end ==> IsTrimSpace(s[i])
    ensures k > 0 ==> !IsTrimSpace(s[k - 1])
  {
    if end == 0 || !IsTrimSpace(s[end - 1]) then end else EndNotSpace(s, end - 1)
  }

  /** `isValidPingRequest`: reject a text that is empty or all white space,
      cut it from the first to the last character that is not space, tab, LF
      or CR, lower-case that and compare it with "ping". */
  predicate IsValidPingRequest(text: string) {
    var start := FirstNotSpace(text, 0);
    start < |text| && LowerCase(text[start..EndNotSpace(text, |text|)]) == "ping"
  }

  /** "ping" in any mix of upper and lower case. */
  predicate IsPingWord(w: string) {
    && |w| == 4
    && (w[0] == 'p' || w[0] == 'P')
    && (w[1] == 'i' || w[1] == 'I')
    && (w[2] == 'n' || w[2] == 'N')
    && (w[3] == 'g' || w[3] == 'G')
  }

  /** A ping word with nothing but space, tab, LF and CR around it. */
  ghost predicate IsPaddedPing(s: string) {
    exists i, j :: 0 <= i <= j <= |s| && AllTrimSpace(s[..i]) && AllTrimSpace(s[j..]) && IsPingWord(s[i..j])
  }

  lemma LowerCaseIsPing(w: string)
    ensures LowerCase(w) == "ping" <==> IsPingWord(w)
  {
    if |w| == 4 {
      var l := LowerCase(w);
      assert l == "ping" <==> l[0] == 'p' && l[1] == 'i' && l[2] == 'n' && l[3] == 'g';
    }
  }

  /** The validation accepts exactly the padded ping words. */
  lemma ValidPingRequestIff(s: string)
    ensures IsValidPingRequest(s) <==> IsPaddedPing(s)
  {
    if IsValidPingRequest(s) {
      ValidIsPadded(s);
    }
    if IsPaddedPing(s) {
      var i, j :| 0 <= i <= j <= |s| && AllTrimSpace(s[..i]) && AllTrimSpace(s[j..]) && IsPingWord(s[i..j]);
      PaddedIsValid(s, i, j);
    }
  }

  lemma ValidIsPadded(s: string)
    requires IsValidPingRequest(s)
    ensures IsPaddedPing(s)
  {
    var i := FirstNotSpace(s, 0);
    var j := EndNotSpace(s, |s|);
    LowerCaseIsPing(s[i..j]);
    assert AllTrimSpace(s[..i]) by {
      forall m | 0 <= m < i ensures IsTrimSpace(s[..i][m]) { assert s[..i][m] == s[m]; }
    }
    assert 0 <= i <= j <= |s| && AllTrimSpace(s[..i]) && AllTrimSpace(s[j..]) && IsPingWord(s[i..j]);
  }

  /** Both scans stop at a word that only white space surrounds. */
  lemma ScansStopAt(s: string, i: nat, j: nat)
    requires i < j <= |s| && AllTrimSpace(s[..i]) && AllTrimSpace(s[j..])
    requires !IsTrimSpace(s[i]) && !IsTrimSpace(s[j - 1])
    ensures FirstNotSpace(s, 0) == i && EndNotSpace(s, |s|) == j
  {
    assert forall m :: 0 <= m < i ==> IsTrimSpace(s[m]) by {
      forall m | 0 <= m < i ensures IsTrimSpace(s[m]) { assert s[..i][m] == s[m]; }
    }
    assert forall m :: j <= m < |s| ==> IsTrimSpace(s[m]) by {
      forall m | j <= m < |s| ensures IsTrimSpace(s[m]) { assert s[j..][m - j] == s[m]; }
    }
  }

  lemma PaddedIsValid(s: string, i: nat, j: nat)
    requires i <= j <= |s| && AllTrimSpace(s[..i]) && AllTrimSpace(s[j..]) && IsPingWord(s[i..j])
    ensures IsValidPingRequest(s)
  {
    var w := s[i..j];
    assert w[0] == s[i] && w[3] == s[j - 1];
    ScansStopAt(s, i, j);
    LowerCaseIsPing(w);
  }

  // ---------------------------------------------------------------------------
  // Instance numbering and the mailbox file

  /** `findMaxServerNumber`: the largest number the server reads out of a name
      in the directory, or 0 when there is none (or all are smaller). */
  method FindMaxServerNumber(listing: seq<string>) returns (maxNumber: int)
    ensures maxNumber >= 0
    ensures forall f :: f in listing && ServerNumber(f).Some? ==> ServerNumber(f).value <= maxNumber
    ensures maxNumber == 0 || exists f :: f in listing && ServerNumber(f) == Some(maxNumber)
  {
    maxNumber := 0;
    for i := 0 to |listing|
      invariant maxNumber >= 0
      invariant forall k :: 0 <= k < i && ServerNumber(listing[k]).Some? ==> ServerNumber(listing[k]).value <= maxNumber
      invariant maxNumber == 0 || exists k :: 0 <= k < i && ServerNumber(listing[k]) == Some(maxNumber)
    {
      var filename := listing[i];
      match ServerNumber(filename) {
        case Some(num) =>
          if num > maxNumber {
            maxNumber := num;
          }
        case None =>
      }
    }
  }

  /** The start of `main`: the instance number is one more than the largest
      existing one, and the file name is built from it. */
  method NewServerInstance(listing: seq<string>) returns (instance: int, fileName: string)
    ensures instance >= 1
    ensures forall f :: f in listing && ServerNumber(f).Some? ==> ServerNumber(f).value < instance
    ensures instance == 1 || exists f :: f in listing && ServerNumber(f) == Some(instance - 1)
    ensures fileName == FileNameFor(instance) && fileName !in listing
    ensures IsServerFileName(fileName)
    ensures ServerNumber(fileName) == Some(instance) && ClientNumber(fileName) == Some(instance)
  {
    var maxServerNumber := FindMaxServerNumber(listing);
    instance := maxServerNumber + 1;
    fileName := PREFIX + IntToString(instance) + EXTENSION;
    FileNameRoundTrip(instance);
  }

  datatype Startup = Startup(started: bool, writes: seq<Message>)

  /** Opening and initialising the mailbox file: when the file could not be
      opened the server stops; when it is shorter than one record (an
      `lseek` error counts as shorter) the all-zero record is written, and a
      failed write stops the server. */
  function StartMailbox(fileOpened: bool, size: int, init: WriteOutcome): (r: Startup)
    ensures r.started <==> fileOpened && (size >= RECORD_SIZE || WriteMessage(init))
    ensures |r.writes| <= 1
    ensures r.writes != [] <==> fileOpened && size < RECORD_SIZE
    ensures forall k :: 0 <= k < |r.writes| ==> r.writes[k].status == FREE && r.writes[k].clientId == 0 && CString(r.writes[k].data) == ""
    ensures r.writes == [] || r.writes == [EmptyRecord()]
  {
    if !fileOpened then Startup(false, [])
    else if size < RECORD_SIZE then Startup(WriteMessage(init), [EmptyRecord()])
    else Startup(true, [])
  }

  const SHUTDOWN_TEXT: string := "SERVER_SHUTDOWN"
  const INVALID_TEXT: string := "ERROR: Only 'ping' is accepted"

  /** The record written at shutdown: FREE and no client ... */
  function ShutdownRecord(): (m: Message)
    ensures m.status == FREE && m.clientId == 0
  {
    Message(FREE, 0, Payload(SHUTDOWN_TEXT))
  }

  /** ... and the shutdown marker as its text, which a client reads as a
      FREE slot. */
  lemma ShutdownText()
    ensures CString(ShutdownRecord().data) == SHUTDOWN_TEXT
  {
    PayloadOfText(SHUTDOWN_TEXT);
  }

  /** The answer to an invalid request: RESPONSE, the caller's id unchanged,
      the fixed error text. */
  function ErrorReply(id: int): (m: Message)
    ensures m.status == RESPONSE && m.clientId == id && CString(m.data) == INVALID_TEXT
    ensures forall i :: |INVALID_TEXT| <= i < PAYLOAD_SIZE ==> m.data[i] == NUL
  {
    PayloadOfText(INVALID_TEXT);
    Message(RESPONSE, id, Payload(INVALID_TEXT))
  }

  function PongText(instance: int, id: int): string {
    "pong from server #" + IntToString(instance) + " to client #" + IntToString(id)
  }

  /** The answer to a valid ping: RESPONSE, the (possibly new) id, and the pong
      text cut to 255 characters. */
  function PongReply(instance: int, id: int): (m: Message)
    ensures m.status == RESPONSE && m.clientId == id
    ensures CString(m.data) == PongText(instance, id)[..Min(|PongText(instance, id)|, PAYLOAD_SIZE - 1)]
  {
    var text := PongText(instance, id);
    assert NoNul(text);
    CStringOfText(text);
    Message(RESPONSE, id, Payload(text))
  }

  // ---------------------------------------------------------------------------
  // Waiting for a request

  predicate ObservesRequest(p: Poll) {
    p.Polled? && match ReadMessage(p.read) {
      case Some(m) => m.status == REQUEST
      case None => false
    }
  }

  /** The inner polling loop of `main`: read the record until it holds a
      REQUEST; a failed read only delays the next attempt. Ends with no request
      when the running flag is found false. `next` is the first poll not used. */
  method WaitForRequest(polls: seq<Poll>, start: nat) returns (request: Option<Message>, next: nat)
    requires start <= |polls|
    ensures start <= next <= |polls|
    ensures request.Some? ==>
      && start < next && ObservesRequest(polls[next - 1])
      && ReadMessage(polls[next - 1].read) == request && request.value.status == REQUEST
    ensures request.None? ==> next == |polls| || polls[next].Stopped?
    ensures forall j :: start <= j < next && (request.None? || j < next - 1) ==> polls[j].Polled? && !ObservesRequest(polls[j])
    ensures request.Some? ==> RequestsFrom(polls, start) == [request.value] + RequestsFrom(polls, next)
    ensures request.None? ==> RequestsFrom(polls, start) == []
  {
    next := start;
    while next < |polls| && polls[next].Polled?
      invariant start <= next <= |polls|
      invariant forall j :: start <= j < next ==> polls[j].Polled? && !ObservesRequest(polls[j])
      invariant RequestsFrom(polls, start) == RequestsFrom(polls, next)
    {
      var msg := ReadMessage(polls[next].read);
      next := next + 1;
      if msg.Some? && msg.value.status == REQUEST {
        return msg, next;
      }
    }
    request := None;
  }

  /** The requests a server reading `polls` from `start` on is handed, in
      order, until the running flag is found false. */
  function RequestsFrom(polls: seq<Poll>, start: nat): seq<Message>
    requires start <= |polls|
    decreases |polls| - start
  {
    if start == |polls| || polls[start].Stopped? then []
    else if ObservesRequest(polls[start]) then [ReadMessage(polls[start].read).value] + RequestsFrom(polls, start + 1)
    else RequestsFrom(polls, start + 1)
  }

  // ---------------------------------------------------------------------------
  // Answers, as a function of the requests

  /** A valid "ping" from a client that has no id yet. */
  predicate IsFirstContact(request: Message) {
    IsValidPingRequest(CString(request.data)) && request.clientId == 0
  }

  /** The answer to one request when `nextId` is the next fresh id. */
  function Answer(instance: int, nextId: int, request: Message): Message {
    if !IsValidPingRequest(CString(request.data)) then ErrorReply(request.clientId)
    else if request.clientId == 0 then PongReply(instance, nextId)
    else PongReply(instance, request.clientId)
  }

  /** The next fresh id after `requests`, starting from `nextId`. */
  function IdAfter(nextId: int, requests: seq<Message>): int
    decreases |requests|
  {
    if requests == [] then nextId
    else
      var last := requests[|requests| - 1];
      IdAfter(nextId, requests[..|requests| - 1]) + (if IsFirstContact(last) then 1 else 0)
  }

  /** The registry after one request: a first contact registers the fresh
      id, a valid ping registers a positive id, nothing else changes it. */
  function Registered(nextId: int, clients: set<int>, request: Message): set<int> {
    if !IsValidPingRequest(CString(request.data)) then clients
    else if request.clientId == 0 then clients + {nextId}
    else if request.clientId > 0 then clients + {request.clientId}
    else clients
  }

  /** The set of registered clients after `requests`. */
  function ClientsAfter(nextId: int, clients: set<int>, requests: seq<Message>): set<int>
    decreases |requests|
  {
    if requests == [] then clients
    else
      var front := requests[..|requests| - 1];
      Registered(IdAfter(nextId, front), ClientsAfter(nextId, clients, front), requests[|requests| - 1])
  }

  /** The records written for `requests`, one per request and in order: the
      k-th is the answer to the k-th request given the fresh ids handed out
      before it. */
  function Answers(instance: int, nextId: int, requests: seq<Message>): (r: seq<Message>)
    ensures |r| == |requests|
    ensures forall k :: 0 <= k < |requests| ==> r[k] == Answer(instance, IdAfter(nextId, requests[..k]), requests[k])
    decreases |requests|
  {
    if requests == [] then []
    else
      var front := requests[..|requests| - 1];
      var r := Answers(instance, nextId, front) + [Answer(instance, IdAfter(nextId, front), requests[|requests| - 1])];
      assert forall k :: 0 <= k < |front| ==> front[..k] == requests[..k];
      r
  }

  /** Handing one more request over from the rest to the served part. */
  lemma Regroup(served: seq<Message>, request: Message, rest: seq<Message>)
    ensures served + ([request] + rest) == (served + [request]) + rest
  {
  }

  /** One more request extends the answers by its answer and moves the fresh
      id and the registry on by one step. */
  lemma AnswerNext(instance: int, nextId: int, clients: set<int>, served: seq<Message>, request: Message)
    ensures Answers(instance, nextId, served + [request]) == Answers(instance, nextId, served) + [Answer(instance, IdAfter(nextId, served), request)]
    ensures IdAfter(nextId, served + [request]) == IdAfter(nextId, served) + (if IsFirstContact(request) then 1 else 0)
    ensures ClientsAfter(nextId, clients, served + [request]) == Registered(IdAfter(nextId, served), ClientsAfter(nextId, clients, served), request)
  {
    assert (served + [request])[..|served|] == served;
  }

  /** The fresh id never goes down, and every first contact moves it on. */
  lemma {:induction false} IdAfterGrows(nextId: int, requests: seq<Message>, j: nat, k: nat)
    requires j < k <= |requests|
    ensures IdAfter(nextId, requests[..k]) >= IdAfter(nextId, requests[..j]) + (if IsFirstContact(requests[j]) then 1 else 0)
    decreases k - j
  {
    assert requests[..k][..k - 1] == requests[..k - 1];
    if k > j + 1 {
      IdAfterGrows(nextId, requests, j, k - 1);
    }
  }

  /** Two first contacts are answered with different ids, in increasing
      order, all of them at least `nextId`. */
  lemma FirstContactsGetDistinctIds(instance: int, nextId: int, requests: seq<Message>, j: nat, k: nat)
    requires j < k < |requests| && IsFirstContact(requests[j]) && IsFirstContact(requests[k])
    ensures nextId <= Answers(instance, nextId, requests)[j].clientId < Answers(instance, nextId, requests)[k].clientId
  {
    IdAfterGrows(nextId, requests, j, k);
    if j > 0 {
      IdAfterGrows(nextId, requests, 0, j);
    }
  }

  // ---------------------------------------------------------------------------
  // The session

  /** The server's in-memory state: its instance number and file name, and the
      client registry. `freshIds` records every id handed out to a client that
      came with id 0, in order. */
  class ServerSession {
    const instanceNumber: int
    const fileName: string
    var nextClientId: int
    var connectedClients: set<int>
    var clientCounter: int
    ghost var freshIds: seq<int>

    /** Fresh ids are handed out as 1, 2, 3, ... and all of them are registered;
        every registered id is positive; the counter is the size of the set. */
    ghost predicate Valid()
      reads this
    {
      && instanceNumber >= 1
      && nextClientId == |freshIds| + 1
      && (forall k :: 0 <= k < |freshIds| ==> freshIds[k] == k + 1)
      && (forall k :: 0 <= k < |freshIds| ==> freshIds[k] in connectedClients)
      && (forall c :: c in connectedClients ==> c > 0)
      && clientCounter == |connectedClients|
    }

    constructor (listing: seq<string>)
      ensures Valid()
      ensures forall f :: f in listing && ServerNumber(f).Some? ==> ServerNumber(f).value < instanceNumber
      ensures instanceNumber == 1 || exists f :: f in listing && ServerNumber(f) == Some(instanceNumber - 1)
      ensures fileName == FileNameFor(instanceNumber) && fileName !in listing
      ensures nextClientId == 1 && connectedClients == {} && freshIds == []
    {
      var n, name := NewServerInstance(listing);
      instanceNumber := n;
      fileName := name;
      nextClientId := 1;
      connectedClients := {};
      clientCounter := 0;
      freshIds := [];
    }

    /** The registry update for a valid request: id 0 is handed the next fresh
        id; a positive id the registry does not know is registered as it is,
        without touching the fresh-id counter; any other id changes nothing.
        Returns the id the answer carries. */
    method Register(requestId: int) returns (id: int)
      requires Valid()
      modifies this
      ensures Valid()
      ensures requestId == 0 ==>
        && id == old(nextClientId)
        && nextClientId == old(nextClientId) + 1
        && connectedClients == old(connectedClients) + {id}
        && freshIds == old(freshIds) + [id]
      ensures requestId != 0 ==>
        && id == requestId
        && nextClientId == old(nextClientId) && freshIds == old(freshIds)
        && connectedClients == (if requestId > 0 then old(connectedClients) + {requestId} else old(connectedClients))
    {
      id := requestId;
      if id == 0 {
        id := nextClientId;
        nextClientId := nextClientId + 1;
        connectedClients := connectedClients + {id};
        clientCounter := |connectedClients|;
        freshIds := freshIds + [id];
      } else if id > 0 && id !in connectedClients {
        connectedClients := connectedClients + {id};
        clientCounter := |connectedClients|;
      }
    }

    /** One request: validate it, update the registry and build the answer. An
        invalid text is answered with the error text and changes nothing. */
    method Dispatch(request: Message) returns (response: Message)
      requires Valid()
      modifies this
      ensures Valid()
      ensures old(freshIds) <= freshIds && old(connectedClients) <= connectedClients
      ensures nextClientId >= old(nextClientId) && response.status == RESPONSE
      ensures !IsValidPingRequest(CString(request.data)) ==>
        && response == ErrorReply(request.clientId)
        && nextClientId == old(nextClientId) && connectedClients == old(connectedClients)
        && freshIds == old(freshIds)
      ensures IsValidPingRequest(CString(request.data)) && request.clientId == 0 ==>
        && response == PongReply(instanceNumber, old(nextClientId))
        && nextClientId == old(nextClientId) + 1
        && connectedClients == old(connectedClients) + {old(nextClientId)}
        && freshIds == old(freshIds) + [old(nextClientId)]
      ensures IsValidPingRequest(CString(request.data)) && request.clientId != 0 ==>
        && response == PongReply(instanceNumber, request.clientId)
        && nextClientId == old(nextClientId) && freshIds == old(freshIds)
        && connectedClients == (if request.clientId > 0 then old(connectedClients) + {request.clientId} else old(connectedClients))
      ensures response == Answer(instanceNumber, old(nextClientId), request)
      ensures nextClientId == old(nextClientId) + (if IsFirstContact(request) then 1 else 0)
      ensures connectedClients == Registered(old(nextClientId), old(connectedClients), request)
    {
      if !IsValidPingRequest(CString(request.data)) {
        response := ErrorReply(request.clientId);
        return;
      }
      var id := Register(request.clientId);
      response := PongReply(instanceNumber, id);
    }

    /** One turn of the outer loop of `main`: wait for a request and answer
        it, or report that the running flag was found false. */
    method ServeOne(polls: seq<Poll>, start: nat) returns (response: Option<Message>, next: nat)
      requires Valid() && start <= |polls|
      modifies this
      ensures Valid()
      ensures start <= next <= |polls| && (response.Some? ==> start < next)
      ensures response.Some? ==> response.value.status == RESPONSE
      ensures response.None? ==> unchanged(this)
      ensures old(freshIds) <= freshIds && old(connectedClients) <= connectedClients
      ensures nextClientId >= old(nextClientId)
      ensures response.Some? ==> ObservesRequest(polls[next - 1])
      ensures response.Some? ==>
        var request := ReadMessage(polls[next - 1].read).value;
        && RequestsFrom(polls, start) == [request] + RequestsFrom(polls, next)
        && response.value == Answer(instanceNumber, old(nextClientId), request)
        && nextClientId == old(nextClientId) + (if IsFirstContact(request) then 1 else 0)
        && connectedClients == Registered(old(nextClientId), old(connectedClients), request)
      ensures response.None? ==> (next == |polls| || polls[next].Stopped?) && RequestsFrom(polls, start) == []
    {
      var request;
      request, next := WaitForRequest(polls, start);
      if request.None? {
        return None, next;
      }
      var answer := Dispatch(request.value);
      response := Some(answer);
    }

    /** The dispatch loop of `main` until the running flag is found false, then
        the shutdown record. `writes` lists every record the server passes to
        `writeMessage`, in order, whether or not the write succeeds; a failed
        write changes nothing in the loop. */
    method Serve(polls: seq<Poll>) returns (writes: seq<Message>)
      requires Valid()
      modifies this
      ensures Valid()
      ensures |writes| >= 1 && writes[|writes| - 1] == ShutdownRecord()
      ensures forall k :: 0 <= k < |writes| - 1 ==> writes[k].status == RESPONSE
      ensures old(freshIds) <= freshIds && old(connectedClients) <= connectedClients
      ensures nextClientId >= old(nextClientId)
      ensures writes == Answers(instanceNumber, old(nextClientId), RequestsFrom(polls, 0)) + [ShutdownRecord()]
      ensures nextClientId == IdAfter(old(nextClientId), RequestsFrom(polls, 0))
      ensures connectedClients == ClientsAfter(old(nextClientId), old(connectedClients), RequestsFrom(polls, 0))
    {
      writes := [];
      var i := 0;
      ghost var served: seq<Message> := [];
      ghost var all := RequestsFrom(polls, 0);
      while true
        invariant Valid()
        invariant 0 <= i <= |polls|
        invariant forall k :: 0 <= k < |writes| ==> writes[k].status == RESPONSE
        invariant old(freshIds) <= freshIds && old(connectedClients) <= connectedClients
        invariant nextClientId >= old(nextClientId)
        invariant served + RequestsFrom(polls, i) == all
        invariant writes == Answers(instanceNumber, old(nextClientId), served)
        invariant nextClientId == IdAfter(old(nextClientId), served)
        invariant connectedClients == ClientsAfter(old(nextClientId), old(connectedClients), served)
        decreases |polls| - i
      {
        var response, next := ServeOne(polls, i);
        if response.None? {
          assert served == all;
          break;
        }
        ghost var request := ReadMessage(polls[next - 1].read).value;
        Regroup(served, request, RequestsFrom(polls, next));
        AnswerNext(instanceNumber, old(nextClientId), old(connectedClients), served, request);
        writes := writes + [response.value];
        served := served + [request];
        i := next;
      }
      assert writes == Answers(instanceNumber, old(nextClientId), RequestsFrom(polls, 0));
      writes := writes + [ShutdownRecord()];
    }
  }

  /** The first exchange against a server started in an empty directory: a
      "ping" from id 0 gets id 1 and "pong from server #1 to client #1". */
  method FirstContactExample() returns (response: Message, counter: int)
    ensures response.status == RESPONSE && response.clientId == 1
    ensures CString(response.data) == "pong from server #1 to client #1"
    ensures counter == 1
  {
    var session := new ServerSession([]);
    PingIsValid();
    response := session.Dispatch(Message(REQUEST, 0, Payload("ping")));
    counter := session.clientCounter;
    assert session.connectedClients == {1};
    assert response == PongReply(1, 1);
    PongTextExample();
  }

  lemma PongTextExample()
    ensures PongText(1, 1) == "pong from server #1 to client #1"
    ensures CString(PongReply(1, 1).data) == PongText(1, 1)
  {
    assert IntToString(1) == "1";
  }

  /** Ids are not unique across clients: a client that presents id 1 before any
      id was handed out is registered as 1, and the next new client is handed
      1 as well. */
  method ReusedIdExample() returns (first: Message, second: Message, counter: int)
    ensures first.clientId == 1 && second.clientId == 1
    ensures first.status == RESPONSE && second.status == RESPONSE
    ensures counter == 1
  {
    var session := new ServerSession([]);
    PingIsValid();
    first := session.Dispatch(Message(REQUEST, 1, Payload("ping")));
    second := session.Dispatch(Message(REQUEST, 0, Payload("ping")));
    counter := session.clientCounter;
    assert session.connectedClients == {1};
  }

  lemma PingIsValid()
    ensures IsValidPingRequest(CString(Payload("ping")))
  {
    PayloadOfText("ping");
    ValidPingRequestIff("ping");
    assert "ping"[..0] == [] && "ping"[4..] == [] && "ping"[0..4] == "ping";
  }
}
