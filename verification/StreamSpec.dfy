/** A stream as a state machine: what each operation returns and where it leaves the stream. */
module StreamSpec {
  import opened Bytes
  import opened Disks
  import opened Regions
  import opened Volumes

  datatype SeekError = SeekEndUnsupported | InvalidWhence | NegativeOffset

  /** The error of a read of len bytes that produced n. */
  function ReadOutcome(v: Volume, n: nat, len: nat): Option<ReadError> {
    if n == len then None
    else if !v.passthrough && v.cipher.None? then Some(NotInitialized)
    else Some(EOF)
  }

  /** What Read and ReadAt report: an end of file after some bytes is not an error. */
  function Reported(n: nat, err: Option<ReadError>): Option<ReadError> {
    if n > 0 && err == Some(EOF) then None else err
  }

  /** Seeking from the start or from the current position; the end and a negative result are refused. */
  function SeekResult(current: int, off: I64, whence: int): Result<int, SeekError> {
    if whence !in {0, 1, 2} then Err(InvalidWhence)
    else if whence == 2 then Err(SeekEndUnsupported)
    else
      var target := if whence == 0 then off else AsInt64(current + off);
      if target < 0 then Err(NegativeOffset) else Ok(target)
  }

  /** A step forward that leaves the 64-bit range wraps around and is refused; no other step wraps. */
  lemma SeekStaysInRange(current: int, off: I64)
    requires 0 <= current < 0x8000_0000_0000_0000
    ensures SeekResult(current, off, 1) ==
            if 0 <= current + off < 0x8000_0000_0000_0000 then Ok(current + off) else Err(NegativeOffset)
  {
  }

  /** Seeking from the start goes to any offset that is not negative; from the end or elsewhere it is refused. */
  lemma SeekElsewhere(current: int, off: I64, whence: int)
    requires whence != 1
    ensures SeekResult(current, off, whence) ==
            if whence == 2 then Err(SeekEndUnsupported)
            else if whence != 0 then Err(InvalidWhence)
            else if off >= 0 then Ok(off) else Err(NegativeOffset)
  {
  }

  datatype Op = Read(len: nat) | Seek(off: I64, whence: int) | Close

  datatype State = State(vol: Volume, offset: int)

  ghost predicate ValidState(s: State) {
    WellFormed(s.vol) && s.offset >= 0
  }

  /** The bytes an operation returns. */
  ghost function Output(s: State, op: Op): seq<byte>
    requires ValidState(s)
  {
    if op.Read? then ReadBytes(s.vol, s.offset, op.len) else []
  }

  /** The error a read reports. */
  ghost function ErrorOf(s: State, op: Op): Option<ReadError>
    requires ValidState(s) && op.Read?
  {
    Reported(|Output(s, op)|, ReadOutcome(s.vol, |Output(s, op)|, op.len))
  }

  ghost function Step(s: State, op: Op): (t: State)
    requires ValidState(s)
    ensures ValidState(t)
  {
    match op
    case Read(len) => s.(offset := s.offset + |ReadBytes(s.vol, s.offset, len)|)
    case Seek(off, whence) =>
      var r := SeekResult(s.offset, off, whence);
      if r.Ok? then s.(offset := r.value) else s
    case Close => s.(vol := s.vol.(cipher := None))
  }

  /** Where a seek leaves the stream: at the target if it is allowed, else where it was, and otherwise unchanged. */
  lemma SeekMoves(s: State, off: I64, whence: int)
    requires ValidState(s) && s.offset < 0x8000_0000_0000_0000
    ensures Step(s, Seek(off, whence)).vol == s.vol
    ensures Step(s, Seek(off, whence)).offset ==
            if whence == 0 && off >= 0 then off
            else if whence == 1 && 0 <= s.offset + off < 0x8000_0000_0000_0000 then s.offset + off
            else s.offset
  {
  }

  /** Closing takes the cipher away and nothing else. */
  lemma CloseOnly(s: State)
    requires ValidState(s)
    ensures Step(s, Close).vol.cipher.None? && Step(s, Close).offset == s.offset
    ensures View(Step(s, Close).vol, s.offset) ==
            if Covered(s.vol.reserved, s.offset / s.vol.sectorSize) || s.vol.passthrough then View(s.vol, s.offset)
            else None
  {
  }
}
