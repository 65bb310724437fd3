/** The client: one request/response exchange over the mailbox, the liveness
    probe, and the session state (`currentFile`, the open handle and
    `currentClientId`) that `connect`, `disconnect` and each ping update. */
module Client {
  import opened Options
  import opened CStrings
  import opened Record
  import opened Naming
  import opened Discovery

  const MAX_WAIT_ATTEMPTS: nat := 5

  // ---------------------------------------------------------------------------
  // Waiting for the slot to be FREE

  /** A poll that reads a record whose status is not FREE. */
  predicate SeesBusy(p: Poll) {
    p.Polled? && match ReadMessage(p.read) {
      case Some(m) => m.status != FREE
      case None => false
    }
  }

  /** The first `MAX_WAIT_ATTEMPTS` polls all read a record that is not FREE. */
  ghost predicate SlotStaysBusy(polls: seq<Poll>) {
    |polls| >= MAX_WAIT_ATTEMPTS && forall k :: 0 <= k < MAX_WAIT_ATTEMPTS ==> SeesBusy(polls[k])
  }

  /** How the wait-for-FREE loop ends after `attempts` busy reads, with `next`
      the first poll it did not use: all attempts found the slot busy, or the
      flag was found false, or a read failed or saw FREE (that poll is used). */
  ghost predicate FreeWait(polls: seq<Poll>, attempts: nat, next: nat) {
    && attempts <= MAX_WAIT_ATTEMPTS && attempts <= |polls| && next <= |polls|
    && (forall j :: 0 <= j < attempts ==> SeesBusy(polls[j]))
    && (attempts == MAX_WAIT_ATTEMPTS ==> next == attempts)
    && (attempts < MAX_WAIT_ATTEMPTS ==>
          || (next == attempts && (attempts == |polls| || polls[attempts].Stopped?))
          || (next == attempts + 1 && polls[attempts].Polled? && !SeesBusy(polls[attempts])))
  }

  /** The wait-for-FREE loop of `main`: at most five reads; a read failure
      ends the wait as a FREE record does. The slot is busy exactly when all
      five reads saw another status. */
  method WaitForFree(polls: seq<Poll>) returns (attempts: nat, next: nat)
    ensures FreeWait(polls, attempts, next)
    ensures attempts >= MAX_WAIT_ATTEMPTS <==> SlotStaysBusy(polls)
  {
    attempts, next := 0, 0;
    while next < |polls| && polls[next].Polled? && attempts < MAX_WAIT_ATTEMPTS
      invariant next == attempts <= MAX_WAIT_ATTEMPTS && attempts <= |polls|
      invariant forall j :: 0 <= j < attempts ==> SeesBusy(polls[j])
    {
      var msg := ReadMessage(polls[next].read);
      next := next + 1;
      if msg.None? || msg.value.status == FREE {
        return;
      }
      attempts := attempts + 1;
    }
  }

  // ---------------------------------------------------------------------------
  // Waiting for the RESPONSE

  datatype AwaitResult = Replied(reply: Message) | TimedOut | ReadFailed | Interrupted

  /** A poll after which the loop goes on: the read worked, the status is not
      RESPONSE, and the deadline has not passed. */
  predicate KeepsWaiting(p: Poll) {
    p.Polled? && !p.late && match ReadMessage(p.read) {
      case Some(m) => m.status != RESPONSE
      case None => false
    }
  }

  /** How a response-polling loop that starts at poll `start` ends, at poll
      `at`: every poll before it kept waiting, and that poll decides the result. */
  ghost predicate Awaited(polls: seq<Poll>, start: nat, result: AwaitResult, at: nat) {
    && start <= at <= |polls|
    && (forall j :: start <= j < at ==> KeepsWaiting(polls[j]))
    && match result {
      case Interrupted => at == |polls| || polls[at].Stopped?
      case ReadFailed => at < |polls| && polls[at].Polled? && ReadMessage(polls[at].read).None?
      case Replied(m) =>
        && at < |polls| && polls[at].Polled?
        && ReadMessage(polls[at].read) == Some(m) && m.status == RESPONSE
      case TimedOut =>
        && at < |polls| && polls[at].Polled? && polls[at].late
        && ReadMessage(polls[at].read).Some? && ReadMessage(polls[at].read).value.status != RESPONSE
    }
  }

  /** The poll that ends the loop is not one after which it goes on. */
  lemma StopDoesNotWait(polls: seq<Poll>, start: nat, result: AwaitResult, at: nat)
    requires Awaited(polls, start, result, at)
    ensures at == |polls| || !KeepsWaiting(polls[at])
  {
  }

  /** The characterisation pins down one result: the loop is deterministic
      in its observations. */
  lemma AwaitedIsUnique(polls: seq<Poll>, start: nat, r1: AwaitResult, at1: nat, r2: AwaitResult, at2: nat)
    requires Awaited(polls, start, r1, at1) && Awaited(polls, start, r2, at2)
    ensures r1 == r2 && at1 == at2
  {
    StopDoesNotWait(polls, start, r1, at1);
    StopDoesNotWait(polls, start, r2, at2);
  }

  /** The response-polling loop, shared by the exchange (5000 ms deadline) and
      the liveness probe (500 ms deadline): read until RESPONSE, stop on a
      failed read, on the deadline or when the flag is found false. */
  method AwaitResponse(polls: seq<Poll>, start: nat) returns (result: AwaitResult, at: nat)
    requires start <= |polls|
    ensures Awaited(polls, start, result, at)
  {
    at := start;
    while at < |polls| && polls[at].Polled?
      invariant start <= at <= |polls|
      invariant forall j :: start <= j < at ==> KeepsWaiting(polls[j])
    {
      var msg := ReadMessage(polls[at].read);
      if msg.None? {
        return ReadFailed, at;
      }
      if msg.value.status == RESPONSE {
        return Replied(msg.value), at;
      }
      if polls[at].late {
        return TimedOut, at;
      }
      at := at + 1;
    }
    result := Interrupted;
  }

  // ---------------------------------------------------------------------------
  // One exchange

  /** The request record: REQUEST, the client's id, and the command cut to
      255 characters, NUL-terminated and zero-padded. */
  function RequestRecord(id: int, command: string): (m: Message)
    ensures m.status == REQUEST && m.clientId == id
    ensures CString(m.data) == CString(command)[..Min(CLength(command), PAYLOAD_SIZE - 1)]
    ensures forall i :: Min(CLength(command), PAYLOAD_SIZE - 1) <= i < PAYLOAD_SIZE ==> m.data[i] == NUL
  {
    Message(REQUEST, id, Payload(command))
  }

  datatype Outcome = Busy | SendFailed | Completed(result: AwaitResult)

  /** One command of `main`: wait for FREE, send the request, wait for the
      response, adopt a server-assigned id, and put the slot back to FREE.
      `writes` lists the records passed to `writeMessage`, in order, whether
      or not each write succeeds. Once the request was
      sent, every way out (response, time-out, failed read, stop) writes the
      FREE reset; a busy slot or a failed send writes nothing more. The id
      changes only from 0 to the positive id of a response. */
  method Exchange(id: int, command: string, polls: seq<Poll>, send: WriteOutcome)
    returns (outcome: Outcome, newId: int, writes: seq<Message>, ghost attempts: nat, ghost resumeAt: nat, ghost at: nat)
    ensures FreeWait(polls, attempts, resumeAt)
    ensures outcome.Busy? <==> SlotStaysBusy(polls)
    ensures outcome.Busy? ==> writes == [] && newId == id
    ensures outcome.SendFailed? <==> !outcome.Busy? && !WriteMessage(send)
    ensures outcome.SendFailed? ==> writes == [RequestRecord(id, command)] && newId == id
    ensures outcome.Completed? ==>
      && writes == [RequestRecord(id, command), ResetRecord(newId)]
      && Awaited(polls, resumeAt, outcome.result, at)
    ensures newId != id ==>
      && id == 0 && newId > 0
      && outcome.Completed? && outcome.result.Replied? && newId == outcome.result.reply.clientId
    ensures outcome.Completed? && outcome.result.Replied? && id == 0 && outcome.result.reply.clientId > 0 ==>
      newId == outcome.result.reply.clientId
  {
    var waitAttempts, next := WaitForFree(polls);
    attempts, resumeAt, at := waitAttempts, next, next;
    if waitAttempts >= MAX_WAIT_ATTEMPTS {
      return Busy, id, [], attempts, resumeAt, at;
    }
    var request := RequestRecord(id, command);
    writes := [request];
    newId := id;
    if !WriteMessage(send) {
      outcome := SendFailed;
      return;
    }
    var result;
    result, at := AwaitResponse(polls, next);
    if result.Replied? && result.reply.clientId > 0 && id == 0 {
      newId := result.reply.clientId;
    }
    writes := writes + [ResetRecord(newId)];
    outcome := Completed(result);
  }

  /** `isConnectedToServer`: when the file opens and its record reads FREE,
      write a "ping" request and poll for a response; only a response counts
      as connected, and only then is the slot reset to FREE. A failed probe
      leaves its request in the mailbox. */
  method Probe(id: int, fileOpens: bool, first: ReadOutcome, send: WriteOutcome, polls: seq<Poll>)
    returns (connected: bool, writes: seq<Message>, ghost result: AwaitResult, ghost at: nat)
    ensures writes != [] <==> fileOpens && ReadMessage(first).Some? && ReadMessage(first).value.status == FREE
    ensures writes != [] ==> writes[0] == RequestRecord(id, "ping")
    ensures connected ==> WriteMessage(send) && writes == [RequestRecord(id, "ping"), ResetRecord(id)]
    ensures !connected && writes != [] ==> writes == [RequestRecord(id, "ping")]
    ensures writes != [] && WriteMessage(send) ==> Awaited(polls, 0, result, at) && (connected <==> result.Replied?)
  {
    connected, writes, result, at := false, [], Interrupted, 0;
    if !fileOpens {
      return;
    }
    var msg := ReadMessage(first);
    if msg.Some? && msg.value.status == FREE {
      var testMsg := RequestRecord(id, "ping");
      writes := [testMsg];
      if WriteMessage(send) {
        var outcome, stop := AwaitResponse(polls, 0);
        result, at := outcome, stop;
        connected := outcome.Replied?;
        if connected {
          writes := writes + [ResetRecord(id)];
        }
      }
    }
  }

  // ---------------------------------------------------------------------------
  // The session

  /** The same polls as seen through a closed handle: every seek fails. */
  function OnClosedHandle(polls: seq<Poll>): (closed: seq<Poll>)
    ensures |closed| == |polls|
    ensures forall k :: 0 <= k < |closed| ==> !SeesBusy(closed[k]) && (closed[k].Stopped? <==> polls[k].Stopped?)
  {
    seq(|polls|, k requires 0 <= k < |polls| =>
      match polls[k]
      case Stopped => Stopped
      case Polled(read, late) => Polled(read.(seekOk := false), late))
  }

  /** The client's state: the chosen file name, whether the handle is open
      (`fd != -1`) and the id the server assigned (0 until then). */
  class ClientSession {
    var currentFile: string
    var isOpen: bool
    var currentClientId: int

    ghost predicate Valid()
      reads this
    {
      currentClientId >= 0 && (isOpen ==> currentFile != "")
    }

    /** Start-up: connect automatically to the newest available server; when
        the chosen file does not open the client starts unconnected. */
    constructor (listing: seq<string>, disk: string -> FileProbe, fileOpens: bool)
      ensures Valid() && currentClientId == 0
      ensures isOpen <==> currentFile != ""
      ensures currentFile != "" ==> currentFile in listing && IsServerFileName(currentFile) && CheckServerAvailability(disk(currentFile))
      ensures currentFile != "" ==>
        var order := SortNewestFirst(ServerFileNames(listing));
        exists k :: 0 <= k < |order| && order[k] == currentFile && forall j :: 0 <= j < k ==> !CheckServerAvailability(disk(order[j]))
      ensures currentFile != "" && AllNumbered(ServerFileNames(listing)) ==>
        forall f :: f in listing && IsServerFileName(f) && CheckServerAvailability(disk(f)) ==>
          ClientNumber(f).Some? && ClientNumber(f).value <= ClientNumber(currentFile).value
      ensures currentFile == "" <==> !fileOpens || forall f :: f in listing && IsServerFileName(f) ==> !CheckServerAvailability(disk(f))
    {
      var chosen := AutoConnect(listing, disk);
      currentClientId := 0;
      if chosen != "" && fileOpens {
        currentFile, isOpen := chosen, true;
      } else {
        currentFile, isOpen := "", false;
      }
    }

    /** The `connect` command: close the handle and connect automatically
        again. A new file resets the id to 0, whether or not it opens; when
        no server is available the old file name and id stay, with the
        handle closed. */
    method Connect(listing: seq<string>, disk: string -> FileProbe, fileOpens: bool) returns (chosen: string)
      requires Valid()
      modifies this
      ensures Valid()
      ensures chosen == "" <==> forall f :: f in listing && IsServerFileName(f) ==> !CheckServerAvailability(disk(f))
      ensures chosen != "" ==> chosen in listing && IsServerFileName(chosen) && CheckServerAvailability(disk(chosen))
      ensures chosen != "" ==>
        var order := SortNewestFirst(ServerFileNames(listing));
        exists k :: 0 <= k < |order| && order[k] == chosen && forall j :: 0 <= j < k ==> !CheckServerAvailability(disk(order[j]))
      ensures chosen != "" && AllNumbered(ServerFileNames(listing)) ==>
        forall f :: f in listing && IsServerFileName(f) && CheckServerAvailability(disk(f)) ==>
          ClientNumber(f).Some? && ClientNumber(f).value <= ClientNumber(chosen).value
      ensures chosen == "" ==> !isOpen && currentFile == old(currentFile) && currentClientId == old(currentClientId)
      ensures chosen != "" ==>
        && currentClientId == 0 && isOpen == fileOpens
        && currentFile == (if fileOpens then chosen else "")
    {
      chosen := AutoConnect(listing, disk);
      isOpen := false;
      if chosen != "" {
        if fileOpens {
          currentFile, isOpen, currentClientId := chosen, true, 0;
        } else {
          currentFile, currentClientId := "", 0;
        }
      }
    }

    /** The `disconnect` command: the id is reset only when a handle was open. */
    method Disconnect()
      requires Valid()
      modifies this
      ensures Valid() && !isOpen && currentFile == ""
      ensures currentClientId == (if old(isOpen) then 0 else old(currentClientId))
    {
      if isOpen {
        isOpen, currentClientId := false, 0;
      }
      currentFile := "";
    }

    /** A "ping" typed while a file name is set. On a closed handle every
        read and the send fail, so the request is never delivered. */
    method Ping(command: string, polls: seq<Poll>, send: WriteOutcome)
      returns (outcome: Outcome, writes: seq<Message>, ghost attempts: nat, ghost resumeAt: nat, ghost at: nat)
      requires Valid() && currentFile != "" && LowerCase(command) == "ping"
      modifies this
      ensures Valid() && currentFile == old(currentFile) && isOpen == old(isOpen)
      ensures outcome.Busy? <==> isOpen && SlotStaysBusy(polls)
      ensures outcome.Busy? ==> writes == []
      ensures outcome.SendFailed? <==> !isOpen || (!outcome.Busy? && !WriteMessage(send))
      ensures !outcome.Busy? ==> |writes| >= 1 && writes[0] == RequestRecord(old(currentClientId), command)
      ensures outcome.SendFailed? ==> writes == [RequestRecord(old(currentClientId), command)]
      ensures outcome.Completed? ==> writes == [RequestRecord(old(currentClientId), command), ResetRecord(currentClientId)]
      ensures currentClientId != old(currentClientId) ==>
        && old(currentClientId) == 0 && currentClientId > 0
        && outcome.Completed? && outcome.result.Replied? && currentClientId == outcome.result.reply.clientId
      ensures outcome.Completed? && outcome.result.Replied? && old(currentClientId) == 0 && outcome.result.reply.clientId > 0 ==>
        currentClientId == outcome.result.reply.clientId
      ensures isOpen ==> FreeWait(polls, attempts, resumeAt)
      ensures outcome.Completed? ==> isOpen && Awaited(polls, resumeAt, outcome.result, at)
    {
      var observed, sendResult := polls, send;
      if !isOpen {
        observed, sendResult := OnClosedHandle(polls), send.(seekOk := false);
        assert !SlotStaysBusy(observed) by {
          if |observed| >= MAX_WAIT_ATTEMPTS { assert !SeesBusy(observed[0]); }
        }
      }
      var newId;
      outcome, newId, writes, attempts, resumeAt, at := Exchange(currentClientId, command, observed, sendResult);
      currentClientId := newId;
    }

    /** The end of `main`: with a handle open, the slot is reset to FREE with
        the client's id. */
    method Shutdown() returns (writes: seq<Message>)
      requires Valid()
      modifies this
      ensures Valid() && !isOpen
      ensures writes == (if old(isOpen) then [ResetRecord(currentClientId)] else [])
      ensures currentClientId == old(currentClientId) && currentFile == old(currentFile)
    {
      writes := [];
      if isOpen {
        writes := [ResetRecord(currentClientId)];
        isOpen := false;
      }
    }
  }
}
