/**
 `FileReadStream` of 3rdparty/rapidjson/filereadstream.h: an input stream over a file, read through a
 buffer. It behaves as the stream over the bytes of the file held in memory.
 */
module FileReadStream {
  import Streams

  lemma SliceOfSlice(s: string, from: nat, to: nat, i: nat)
    requires from <= to <= |s| && i + 4 <= to - from
    ensures s[from..to][i..i + 4] == s[from + i..][..4]
  {
    var a, b := s[from..to][i..i + 4], s[from + i..][..4];
    assert forall k :: 0 <= k < 4 ==> a[k] == s[from..to][i + k] && b[k] == s[from + i..][k];
    assert forall k :: 0 <= k < 4 ==> a[k] == b[k];
  }

  class FileReadStream {
    /** The bytes of the file, and how many of them `fread` has delivered. */
    const file: string
    var fileRead: nat
    const buffer: array<char>
    /** Positions in the buffer: the last character and the current one. */
    var bufferLast: int
    var current: nat
    var readCount: nat
    var count: nat
    var eof: bool

    /** The buffer holds the part of the file that was read last, and after the end of the file a zero. */
    ghost predicate Valid()
      reads this, buffer
    {
      && buffer.Length >= 4 && readCount <= buffer.Length
      && count + readCount == fileRead <= |file|
      && buffer[..readCount] == file[count..fileRead]
      && bufferLast == (if eof then readCount else readCount - 1)
      && eof == (readCount < buffer.Length)
      && (eof ==> fileRead == |file| && buffer[readCount] == '\0')
      && current <= bufferLast
    }

    /** What is still to be read. */
    ghost function Text(): string
      requires Valid()
      reads this, buffer
    {
      file[count + current..]
    }

    constructor (file: string, buffer: array<char>)
      requires buffer.Length >= 4
      modifies buffer
      ensures Valid() && this.file == file && this.buffer == buffer && Text() == file
    {
      this.file := file;
      this.buffer := buffer;
      fileRead, bufferLast, current, readCount, count, eof := 0, 0, 0, 0, 0, false;
      new;
      Refill();
    }

    /** `std::fread`: short only at the end of the file. */
    method Fread() returns (n: nat)
      requires fileRead <= |file|
      modifies this`fileRead, buffer
      ensures n == if |file| - old(fileRead) < buffer.Length then |file| - old(fileRead) else buffer.Length
      ensures fileRead == old(fileRead) + n && buffer[..n] == file[old(fileRead)..fileRead]
    {
      n := if |file| - fileRead < buffer.Length then |file| - fileRead else buffer.Length;
      forall i | 0 <= i < n {
        buffer[i] := file[fileRead + i];
      }
      fileRead := fileRead + n;
    }

    /** The part of `Read` that fills the buffer again. */
    method Refill()
      requires buffer.Length >= 4 && count + readCount == fileRead <= |file|
      modifies this, buffer
      ensures Valid() && count == old(count + readCount) && current == 0
    {
      count := count + readCount;
      readCount := Fread();
      bufferLast := readCount - 1;
      current := 0;
      eof := false;
      if readCount < buffer.Length {
        buffer[readCount] := '\0';
        bufferLast := bufferLast + 1;
        eof := true;
      }
    }

    method Read()
      requires Valid()
      modifies this, buffer
      ensures Valid() && Text() == Streams.Rest(old(Text()))
    {
      if current < bufferLast {
        current := current + 1;
      } else if !eof {
        Refill();
      }
    }

    method Take() returns (c: char)
      requires Valid()
      modifies this, buffer
      ensures Valid() && c == Streams.Peek(old(Text())) && Text() == Streams.Rest(old(Text()))
    {
      c := Peek();
      Read();
    }

    method Peek() returns (c: char)
      requires Valid()
      ensures c == Streams.Peek(Text())
    {
      c := buffer[current];
      if current < readCount {
        assert buffer[..readCount][current] == file[count..fileRead][current];
      }
    }

    method Tell() returns (n: nat)
      requires Valid()
      ensures n + |Text()| == |file|
    {
      n := count + current;
    }

    /** `Peek4`: four characters in a row, exactly when the buffer holds four bytes of the file from here on. */
    method Peek4() returns (found: bool, four: string)
      requires Valid()
      ensures found == (count + current + 4 <= fileRead)
      ensures found ==> |Text()| >= 4 && four == Text()[..4]
    {
      four := "";
      found := current + 4 - (if eof then 0 else 1) <= bufferLast;
      if found {
        four := buffer[current..current + 4];
        assert four == buffer[..readCount][current..current + 4] == file[count..fileRead][current..current + 4];
        SliceOfSlice(file, count, fileRead, current);
      }
    }
  }

  /** The first `k` characters that a stream over `file` delivers. */
  function Delivered(file: string, k: nat): (s: string)
    ensures |s| == k
  {
    seq(k, i => if 0 <= i < |file| then file[i] else '\0')
  }

  /** What is left of the text after `k` characters. */
  function Left(file: string, k: nat): string {
    if k < |file| then file[k..] else ""
  }

  lemma DeliverNext(file: string, k: nat)
    ensures Delivered(file, k + 1) == Delivered(file, k) + [Streams.Peek(Left(file, k))]
    ensures Streams.Rest(Left(file, k)) == Left(file, k + 1)
    ensures Streams.Peek(Left(file, k)) == (if k < |file| then file[k] else '\0')
  {
  }

  /** After `k` calls of `Take`, `Peek` is byte `k`, or zero past the end, and `Tell` is the smaller of `k` and
      the length of the file, whatever the size of the buffer. */
  method TakeMany(file: string, buffer: array<char>, k: nat) returns (taken: string, next: char, tell: nat)
    requires buffer.Length >= 4
    modifies buffer
    ensures taken == Delivered(file, k)
    ensures next == if k < |file| then file[k] else '\0'
    ensures tell == if k < |file| then k else |file|
  {
    hide Delivered, Left, Streams.Peek, Streams.Rest, FileReadStream.Valid;
    var stream := new FileReadStream(file, buffer);
    assert Delivered(file, 0) == "" && Left(file, 0) == file by { DeliverNone(file); }
    taken := "";
    for i := 0 to k
      invariant stream.Valid() && fresh(stream) && stream.buffer == buffer && stream.file == file
      invariant stream.Text() == Left(file, i) && taken == Delivered(file, i)
    {
      DeliverNext(file, i);
      var c := stream.Take();
      taken := taken + [c];
    }
    DeliverNext(file, k);
    next := stream.Peek();
    tell := stream.Tell();
    LeftLength(file, k);
  }

  lemma DeliverNone(file: string)
    ensures Delivered(file, 0) == "" && Left(file, 0) == file
  {
  }

  lemma LeftLength(file: string, k: nat)
    ensures |Left(file, k)| == if k < |file| then |file| - k else 0
  {
  }
}
