/** Runs of a stream: any sequence of Read, Seek and Close. */
module Runs {
  import opened Bytes
  import opened Disks
  import opened Volumes
  import opened StreamSpec

  ghost function Run(s: State, ops: seq<Op>): (t: State)
    requires ValidState(s)
    ensures ValidState(t)
    decreases |ops|
  {
    if ops == [] then s else Run(Step(s, ops[0]), ops[1..])
  }

  ghost function Outputs(s: State, ops: seq<Op>): seq<byte>
    requires ValidState(s)
    decreases |ops|
  {
    if ops == [] then [] else Output(s, ops[0]) + Outputs(Step(s, ops[0]), ops[1..])
  }

  // ---------- chunking ----------

  function Reads(lens: seq<nat>): seq<Op> {
    if lens == [] then [] else [Read(lens[0])] + Reads(lens[1..])
  }

  function Sum(lens: seq<nat>): nat {
    if lens == [] then 0 else lens[0] + Sum(lens[1..])
  }

  /** Consecutive reads, each from where the one before ended. */
  ghost function Chunks(v: Volume, off: nat, lens: seq<nat>): seq<byte>
    requires WellFormed(v)
    decreases |lens|
  {
    if lens == [] then []
    else
      var first := ReadBytes(v, off, lens[0]);
      first + Chunks(v, off + |first|, lens[1..])
  }

  lemma {:induction false} ChunksJoin(v: Volume, off: nat, lens: seq<nat>)
    requires WellFormed(v)
    ensures Chunks(v, off, lens) == ReadBytes(v, off, Sum(lens))
    decreases |lens|
  {
    if lens != [] {
      ChunksJoin(v, off + |ReadBytes(v, off, lens[0])|, lens[1..]);
      ReadBytesChunks(v, off, lens[0], Sum(lens[1..]));
    }
  }

  lemma {:induction false} ReadsAreChunks(s: State, lens: seq<nat>)
    requires ValidState(s)
    ensures Outputs(s, Reads(lens)) == Chunks(s.vol, s.offset, lens)
    ensures Run(s, Reads(lens)) == s.(offset := s.offset + |Chunks(s.vol, s.offset, lens)|)
    decreases |lens|
  {
    if lens != [] {
      var (len, rest, t) := (lens[0], lens[1..], Step(s, Read(lens[0])));
      ReadsAreChunks(t, rest);
      assert Reads(lens)[1..] == Reads(rest);
    }
  }

  /** However a stretch is cut into consecutive reads, they return the bytes of one read and end where it ends. */
  lemma ChunkedReads(s: State, lens: seq<nat>)
    requires ValidState(s)
    ensures Outputs(s, Reads(lens)) == ReadBytes(s.vol, s.offset, Sum(lens))
    ensures Run(s, Reads(lens)) == s.(offset := s.offset + |ReadBytes(s.vol, s.offset, Sum(lens))|)
  {
    ReadsAreChunks(s, lens);
    ChunksJoin(s.vol, s.offset, lens);
  }

  /** Two ways of cutting the same total return the same bytes. */
  lemma ChunkingIrrelevant(s: State, a: seq<nat>, b: seq<nat>)
    requires ValidState(s) && Sum(a) == Sum(b)
    ensures Outputs(s, Reads(a)) == Outputs(s, Reads(b)) && Run(s, Reads(a)) == Run(s, Reads(b))
  {
    ChunkedReads(s, a);
    ChunkedReads(s, b);
  }

  // ---------- over every run ----------

  predicate Closes(ops: seq<Op>) {
    exists i :: 0 <= i < |ops| && ops[i].Close?
  }

  /** A run changes the volume only by closing it. */
  lemma {:induction false} RunKeepsVolume(s: State, ops: seq<Op>)
    requires ValidState(s)
    ensures Run(s, ops).vol == if Closes(ops) then s.vol.(cipher := None) else s.vol
    decreases |ops|
  {
    if ops != [] {
      var t := Step(s, ops[0]);
      RunKeepsVolume(t, ops[1..]);
      if ops[0].Close? {
        assert t.vol.(cipher := None) == t.vol;
      }
      if Closes(ops[1..]) {
        var i :| 0 <= i < |ops[1..]| && ops[1..][i].Close?;
        assert ops[i + 1].Close?;
      } else if Closes(ops) {
        var i :| 0 <= i < |ops| && ops[i].Close?;
        assert i > 0 ==> ops[1..][i - 1].Close?;
      }
    }
  }

  /** On a stream that can be opened, the missing-cipher error never comes before Close. */
  lemma NoMissingCipherBeforeClose(s: State, ops: seq<Op>, len: nat)
    requires ValidState(s) && (s.vol.passthrough || s.vol.cipher.Some?)
    ensures var t := Run(s, ops);
            ErrorOf(t, Read(len)) == Some(NotInitialized) <==>
            !s.vol.passthrough && Closes(ops) && |Output(t, Read(len))| < len
  {
    RunKeepsVolume(s, ops);
  }
}
