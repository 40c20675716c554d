/** The recorder over the trend file writer: a timer appends one record after another and stops at
    the first append that is refused. What the file then shows of the acknowledged records depends
    only on how many bytes the medium accepts. */
module TrendFileRecorder {
  import opened TndFormat
  import opened TrendFileWriter

  // How many bytes a new file and n whole appends write.
  function BytesStored(n: nat): nat {
    520 + 34 * n + n / 31 * 32
  }

  lemma OneMoreStored(n: nat)
    ensures BytesStored(n + 1) == BytesStored(n) + AppendBytes(n)
    ensures 32 <= CheckedBytes(n) < AppendBytes(n)
    ensures BytesStored(n) >= 520 && (BytesStored(n) == 520 <==> n == 0)
  {
  }

  // Is the append of record n answered with true?
  predicate Acknowledged(medium: nat, n: nat) {
    medium >= BytesStored(n) + CheckedBytes(n)
  }

  // Does a byte of record n's count reach the medium?
  predicate Counted(medium: nat, n: nat) {
    medium > BytesStored(n) + 32
  }

  // How many of the first n records the file shows.
  function Shown(medium: nat, n: nat): (s: nat)
    ensures s <= n
  {
    if n == 0 then 0
    else if Counted(medium, n - 1) then n
    else Shown(medium, n - 1)
  }

  // The records shown are a prefix: those with a byte of their count stored.
  lemma {:induction false} ShownIffCounted(medium: nat, n: nat, i: nat)
    requires i < n
    ensures i < Shown(medium, n) <==> Counted(medium, i)
  {
    OneMoreStored(n - 1);
    if i < n - 1 {
      ShownIffCounted(medium, n - 1, i);
      StoredGrows(i, n - 1);
    } else if n > 1 && !Counted(medium, i) {
      assert Shown(medium, n) <= n - 1;
    }
  }

  lemma StoredGrows(i: nat, j: nat)
    requires i <= j
    ensures BytesStored(i) + 34 * (j - i) <= BytesStored(j)
  {
  }

  lemma AllBefore(medium: nat, n: nat)
    requires medium >= BytesStored(n)
    ensures Shown(medium, n) == n
  {
    if n > 0 {
      OneMoreStored(n - 1);
    }
  }

  /** Of n acknowledged records the file shows all, or all but the last; and the last is missing
      exactly when it is not the 31st of its block and the medium accepts its 32 bytes and not one more. */
  lemma OnlyTheLastIsLost(medium: nat, n: nat)
    requires n > 0 && Acknowledged(medium, n - 1)
    ensures forall i | 0 <= i < n :: Acknowledged(medium, i)
    ensures Shown(medium, n) == if (n - 1) % 31 != 30 && medium == BytesStored(n - 1) + 32 then n - 1 else n
  {
    forall i | 0 <= i < n - 1
      ensures Acknowledged(medium, i)
    {
      OneMoreStored(i);
      StoredGrows(i + 1, n - 1);
    }
    AllBefore(medium, n - 1);
  }

  datatype StartResult = Started | AlreadyRecording | NoChannels | NotOpened

  class Recorder {
    const writer: Writer
    var recording: bool
    var lastRecordCount: nat
    var lastFileSize: nat
    ghost var header: seq<byte>
    ghost var acked: seq<Record>    // the records whose append was answered with true
    ghost var medium: nat           // how many bytes of this file the medium accepts

    // Every acknowledged record is stored; only the header of a new file may still be buffered.
    ghost predicate Intact()
      reads this, writer, writer.file
    {
      && writer.Valid() && writer.records == acked
      && |header| == 512 && |acked| <= CAPACITY
      && writer.file.Content() == FileAfter(header, acked)
      && medium + |writer.file.buffer| == writer.file.budget + BytesStored(|acked|)
    }

    // The medium refused a byte of the last acknowledged append.
    ghost predicate Broken()
      reads this, writer, writer.file
    {
      && writer.file.Jammed()
      && |header| == 512 && 0 < |acked| <= CAPACITY
      && var m := |acked| - 1;
      && BytesStored(m) + CheckedBytes(m) <= medium < BytesStored(m) + AppendBytes(m)
      && writer.file.bytes == TornAppend(FileAfter(header, acked[..m]), m, acked[m], medium - BytesStored(m))
    }

    ghost predicate Valid()
      reads this, writer, writer.file
    {
      && recording == writer.isOpen
      && (recording ==> Intact() || Broken())
    }

    constructor (writer: Writer)
      requires !writer.isOpen
      ensures Valid() && !recording && this.writer == writer
    {
      this.writer := writer;
      recording := false;
      lastRecordCount, lastFileSize := 0, 0;
      header, acked, medium := [], [], 0;
    }

    method Start(c: Config, stime: seq<byte>, directoryMade: bool, fileOpened: bool) returns (r: StartResult)
      requires Valid() && ConfigOk(c) && |stime| == 6
      modifies this, writer, writer.file
      ensures Valid() && recording == (old(recording) || r == Started)
      ensures r == AlreadyRecording <==> old(recording)
      ensures r == NoChannels <==> !old(recording) && c.chCnt == 0
      ensures r == NotOpened <==> !old(recording) && c.chCnt != 0 && !(directoryMade && fileOpened)
      ensures r != Started ==> unchanged(this) && writer.file.bytes == old(writer.file.bytes)
      ensures r == AlreadyRecording ==> unchanged(writer) && unchanged(writer.file)
      ensures r == Started ==> acked == [] && header == FileHeader(c, stime) && medium == old(writer.file.budget)
    {
      if recording {
        return AlreadyRecording;
      }
      if c.chCnt == 0 {
        return NoChannels;
      }
      if !directoryMade {
        return NotOpened;
      }
      var ok := writer.Open(c, stime, directoryMade, fileOpened);
      if !ok {
        return NotOpened;
      }
      recording := true;
      header, acked, medium := FileHeader(c, stime), [], writer.file.budget;
      return Started;
    }

    // The file after closing: everything the medium accepts of what was offered to it.
    ghost predicate Settled(offered: seq<Record>)
      reads this, writer, writer.file
    {
      && |header| == 512
      && (medium < 520 ==> writer.file.bytes == FileAfter(header, [])[..medium])
      && (medium >= 520 ==> Shows(writer.file.bytes, offered[..Shown(medium, |offered|)])
                            && writer.file.bytes[..512] == header)
    }

    method Stop()
      requires recording == writer.isOpen
      modifies this, writer, writer.file
      ensures Valid() && !recording
      ensures acked == old(acked) && medium == old(medium) && header == old(header)
      ensures old(recording && Valid()) ==> Settled(acked)
      ensures old(writer.file.buffer == [] || writer.file.Jammed()) ==> writer.file.bytes == old(writer.file.bytes)
      ensures !old(recording) ==> unchanged(this) && unchanged(writer) && unchanged(writer.file)
    {
      hide WriteAt, TornAppend, FileAfter, Complete, Shows, Shown, BytesStored, CheckedBytes, AppendBytes;
      if !recording {
        return;
      }
      ghost var intact, broken := Intact(), Broken();
      if intact {
        PendingHeader();
        ContentShows();
        OneMoreStored(|acked|);
        WholeBuffer(writer.file.buffer);
        if medium < BytesStored(|acked|) {
          PrefixStored(writer.file.buffer, medium);
        }
      } else if broken {
        BrokenShows(acked[0]);
      }
      lastRecordCount := writer.recordCount;
      lastFileSize := writer.file.Size();
      writer.Close();
      recording := false;
    }

    lemma PendingHeader()
      requires Intact()
      ensures writer.file.buffer == [] || (acked == [] && |writer.file.buffer| == 520 && writer.file.bytes == [])
    {
      FileAfterIsComplete(header, acked);
    }

    lemma ContentShows()
      requires Intact()
      ensures BytesStored(|acked|) >= 520
      ensures var c := writer.file.Content();
              && |c| >= 512 && c[..512] == header
              && (medium >= BytesStored(|acked|) ==> Shows(c, acked[..Shown(medium, |acked|)]))
    {
      FileAfterIsComplete(header, acked);
      if medium >= BytesStored(|acked|) {
        AllBefore(medium, |acked|);
        assert acked[..|acked|] == acked;
      }
    }

    // A broken file shows the same records whether or not one more is offered.
    lemma BrokenShows(values: Record)
      requires Broken()
      ensures |writer.file.bytes| >= 512 && Settled(acked) && Settled(acked + [values])
    {
      hide WriteAt, TornAppend, FileAfter, Shows, BytesStored, CheckedBytes, AppendBytes;
      var m := |acked| - 1;
      OneMoreStored(m);
      StoppedAppendShows(header, acked[..m], acked[m], medium);
      assert acked[..m] + [acked[m]] == acked;
      assert (acked + [values])[..Shown(medium, m + 1)] == acked[..Shown(medium, m + 1)];
    }

    // What is shown after a refused append does not depend on closing the file.
    method Append(values: Record) returns (r: AppendResult)
      requires Valid() && recording
      modifies this`acked, writer, writer.file
      ensures recording == writer.isOpen
      ensures r == Appended <==> |old(acked)| < CAPACITY && Acknowledged(medium, |old(acked)|)
      ensures acked == if r == Appended then old(acked) + [values] else old(acked)
      ensures r == Appended ==> Valid()
      ensures r != Appended ==>
                && (writer.file.buffer == [] || writer.file.Jammed())
                && Settled(if |acked| < CAPACITY then acked + [values] else acked)
    {
      hide WriteAt, TornAppend, FileAfter, Complete, Shows, Shown, BytesStored, CheckedBytes, AppendBytes;
      ghost var n, intact := |acked|, Intact();
      OneMoreStored(n);
      if intact {
        PendingHeader();
        if n < CAPACITY {
          FileAfterOneMore(header, acked, values);
        }
        if n < CAPACITY && medium >= BytesStored(n) {
          StoppedAppendShows(header, acked, values, medium);
        }
        if n == CAPACITY {
          ContentShows();
        }
      } else {
        OneMoreStored(n - 1);
        BrokenShows(values);
      }
      r := writer.AppendRecord(values);
      if r == Appended {
        acked := acked + [values];
      }
    }

    method OnTimer(values: Record)
      requires Valid() && recording
      modifies this, writer, writer.file
      ensures Valid()
      ensures medium == old(medium) && header == old(header)
      ensures recording <==> |old(acked)| < CAPACITY && Acknowledged(medium, |old(acked)|)
      ensures acked == if recording then old(acked) + [values] else old(acked)
      ensures !recording ==> Settled(if |acked| < CAPACITY then acked + [values] else acked)
    {
      var r := Append(values);
      if r != Appended {
        Stop();
      }
    }
  }

  // The file of an append that stopped when the medium was full, in terms of the records shown.
  lemma StoppedAppendShows(header: seq<byte>, recs: seq<Record>, rec: Record, medium: nat)
    requires |header| == 512 && |recs| < CAPACITY && medium >= BytesStored(|recs|)
    ensures var n := |recs|;
            var torn := TornAppend(FileAfter(header, recs), n, rec, medium - BytesStored(n));
            Shows(torn, (recs + [rec])[..Shown(medium, n + 1)]) && |torn| >= 512 && torn[..512] == header
  {
    var n := |recs|;
    FileAfterIsComplete(header, recs);
    TornAppendShows(FileAfter(header, recs), recs, rec, medium - BytesStored(n));
    AllBefore(medium, n);
    assert (recs + [rec])[..n] == recs && (recs + [rec])[..n + 1] == recs + [rec];
  }
}
