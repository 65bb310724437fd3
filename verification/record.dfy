/** The mailbox record shared by server and client, and the outcome rules of
    `readMessage` / `writeMessage`, which both programs define identically. */
module Record {
  import opened Options
  import opened CStrings

  const FREE: int := 0
  const REQUEST: int := 1
  const RESPONSE: int := 2

  /** `sizeof(Message)`: two 4-byte ints and the 256-byte payload. */
  const RECORD_SIZE: int := 4 + 4 + PAYLOAD_SIZE

  type Data = s: seq<char> | |s| == PAYLOAD_SIZE witness seq(PAYLOAD_SIZE, _ => NUL)

  /** `struct Message { int status; int client_id; char data[256]; }`. Status
      is kept as a plain integer: a record read from the file may hold any value. */
  datatype Message = Message(status: int, clientId: int, data: Data)

  /** The all-zero record: FREE, no client, empty payload. */
  function EmptyRecord(): (m: Message)
    ensures m.status == FREE && m.clientId == 0
    ensures forall i :: 0 <= i < PAYLOAD_SIZE ==> m.data[i] == NUL
  {
    Message(FREE, 0, Payload(""))
  }

  /** What one `lseek` + `read(fd, &msg, sizeof(Message))` gives back: whether
      the seek worked, the byte count `read` returned (-1 on error), and the
      record the file currently holds, which a full read delivers. */
  datatype ReadOutcome = ReadOutcome(seekOk: bool, count: int, stored: Message)

  /** What one `lseek` + `write` + `fsync` gives back. */
  datatype WriteOutcome = WriteOutcome(seekOk: bool, count: int, syncOk: bool)

  /** `readMessage`: a failed seek or read fails; a read of zero bytes yields the
      all-zero record; a full-size read yields the stored record; any other
      count is a partial read and fails. */
  function ReadMessage(o: ReadOutcome): (r: Option<Message>)
    ensures r.Some? <==> o.seekOk && (o.count == 0 || o.count == RECORD_SIZE)
    ensures r.Some? && o.count == 0 ==> r.value == EmptyRecord()
    ensures r.Some? && o.count != 0 ==> r.value == o.stored
  {
    if !o.seekOk then None
    else if o.count == -1 then None
    else if o.count == 0 then Some(EmptyRecord())
    else if o.count == RECORD_SIZE then Some(o.stored)
    else None
  }

  /** `writeMessage`: succeeds exactly when the seek worked and the whole record
      was written; the result of `fsync` plays no part. */
  function WriteMessage(o: WriteOutcome): (ok: bool)
    ensures ok <==> o.seekOk && o.count == RECORD_SIZE
  {
    o.seekOk && o.count != -1 && o.count == RECORD_SIZE
  }

  /** One turn of a polling loop as the process sees it: either the shared
      `running` flag is found false (`Stopped`), or the record is read and, in
      loops that have a deadline, the clock is checked afterwards (`late`:
      the deadline has passed). A sequence of polls is the oracle standing for
      the other process, the OS and the clock; past its end the process is
      taken to be stopped. A `Stopped` poll is not consumed: the flag never
      becomes true again, so every later check sees it too. */
  datatype Poll = Stopped | Polled(read: ReadOutcome, late: bool)

  /** The record a client writes back after reading its response: FREE, its
      own id, an all-zero payload. */
  function ResetRecord(id: int): (m: Message)
    ensures m.status == FREE && m.clientId == id && CString(m.data) == ""
    ensures forall i :: 0 <= i < PAYLOAD_SIZE ==> m.data[i] == NUL
  {
    Message(FREE, id, Payload(""))
  }
}
