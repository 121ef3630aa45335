/** The unlocked fast paths of buffered streams: a count of bytes left and a pointer into the
    buffer, with the buffer's owner called in when the count runs out. */
module Stdio {
  import opened Basics

  const EOF := -1

  /** `(char)c`, as the unsigned value that `0xff &` makes of it */
  function ToByte(c: int): byte {
    (c % 256) as byte
  }

  // ---- Output -------------------------------------------------------------------------------

  /** A stream open for writing. `file` is what has been flushed. */
  datatype Out = Out(buf: seq<byte>, ptr: nat, cnt: int, file: seq<byte>)

  /** One call, and what a flush during it would do: whether it succeeds, how many of the buffered
      bytes it writes out, and how much of the buffer it gives back. */
  datatype Put = Put(ch: int, flush: Flush)
  datatype Flush = Flush(succeeds: bool, writes: nat, room: nat)

  ghost predicate OutOk(o: Out) {
    |o.buf| > 0 && 0 <= o.cnt && o.ptr + o.cnt <= |o.buf|
  }

  /** What the caller has written: flushed bytes first, buffered ones after them. */
  function Written(o: Out): seq<byte>
    requires o.ptr <= |o.buf|
  {
    o.file + o.buf[..o.ptr]
  }

  /** How many bytes leave the buffer: no more than it holds, and one at least when the byte to
      come would find no place. */
  function FlushSize(held: nat, size: nat, f: Flush): (k: nat)
    requires held <= size && size > 0
    ensures k <= held && (f.succeeds ==> held - k < size)
  {
    var k := if f.writes < held then f.writes else held;
    if f.succeeds && k == 0 && held == size then 1 else k
  }

  function Least(a: nat, b: nat): nat {
    if a < b then a else b
  }

  /** Writes out the oldest `k` bytes, moves the others to the front, and leaves a count of 0. */
  function WrittenOut(o: Out, k: nat): (o': Out)
    requires k <= o.ptr <= |o.buf|
    ensures |o'.buf| == |o.buf|
  {
    Out(o.buf[k..o.ptr] + o.buf[o.ptr - k..], o.ptr - k, 0, o.file + o.buf[..k])
  }

  /** Stores a byte and leaves a given count. */
  function Stored(o: Out, b: byte, cnt: int): Out
    requires o.ptr < |o.buf|
  {
    o.(buf := o.buf[o.ptr := b], ptr := o.ptr + 1, cnt := cnt)
  }

  /** What is assumed of _flsbuf: it writes out some of the buffered bytes and moves the others.
      Then it adds the byte, or fails. */
  function FlushBuf(o: Out, put: Put): (Out, int)
    requires o.ptr <= |o.buf| && |o.buf| > 0
  {
    var o1 := WrittenOut(o, FlushSize(o.ptr, |o.buf|, put.flush));
    var b := ToByte(put.ch);
    if put.flush.succeeds then (Stored(o1, b, Least(put.flush.room, |o.buf| - o1.ptr - 1)), b as int)
    else (o1, EOF)
  }

  lemma FlushIgnoresCount(o: Out, put: Put, cnt: int)
    requires o.ptr <= |o.buf| && |o.buf| > 0
    ensures FlushBuf(o.(cnt := cnt), put) == FlushBuf(o, put)
  {
  }

  function PutStep(o: Out, put: Put): (Out, int)
    requires OutOk(o)
  {
    if o.cnt > 0 then (Stored(o, ToByte(put.ch), o.cnt - 1), ToByte(put.ch) as int) else FlushBuf(o, put)
  }

  lemma WritingOutKeepsOrder(o: Out, k: nat)
    requires k <= o.ptr <= |o.buf|
    ensures Written(WrittenOut(o, k)) == Written(o)
  {
    var kept := o.buf[k..o.ptr];
    assert (kept + o.buf[o.ptr - k..])[..o.ptr - k] == kept;
    assert o.file + o.buf[..k] + kept == o.file + o.buf[..o.ptr];
  }

  lemma StoringAppends(o: Out, b: byte, cnt: int)
    requires o.ptr < |o.buf|
    ensures Written(Stored(o, b, cnt)) == Written(o) + [b]
  {
    assert o.buf[o.ptr := b][..o.ptr + 1] == o.buf[..o.ptr] + [b];
  }

  lemma PutAppends(o: Out, put: Put)
    requires OutOk(o)
    ensures
      var (o', r) := PutStep(o, put);
      && OutOk(o')
      && (r == EOF <==> o.cnt == 0 && !put.flush.succeeds)
      && (r == EOF ==> Written(o') == Written(o))
      && (r != EOF ==> r == put.ch % 256 && Written(o') == Written(o) + [ToByte(put.ch)])
  {
    var b := ToByte(put.ch);
    if o.cnt > 0 {
      StoringAppends(o, b, o.cnt - 1);
    } else {
      var k := FlushSize(o.ptr, |o.buf|, put.flush);
      var o1 := WrittenOut(o, k);
      WritingOutKeepsOrder(o, k);
      if put.flush.succeeds { StoringAppends(o1, b, Least(put.flush.room, |o.buf| - o1.ptr - 1)); }
    }
  }

  function PutAll(o: Out, puts: seq<Put>): (Out, seq<int>)
    requires OutOk(o)
    decreases |puts|
  {
    if puts == [] then (o, []) else
    PutAppends(o, puts[0]);
    var (o1, r) := PutStep(o, puts[0]);
    var (o2, rs) := PutAll(o1, puts[1..]);
    (o2, [r] + rs)
  }

  /** The bytes of the calls that did not report failure. */
  function Accepted(puts: seq<Put>, results: seq<int>): seq<byte>
    requires |puts| == |results|
  {
    if puts == [] then []
    else (if results[0] == EOF then [] else [ToByte(puts[0].ch)]) + Accepted(puts[1..], results[1..])
  }

  /** Each call returns its byte or fails, and fails only where a flush does. */
  ghost predicate Results(puts: seq<Put>, results: seq<int>)
    requires |puts| == |results|
  {
    forall i :: 0 <= i < |puts| ==>
      results[i] == puts[i].ch % 256 || (results[i] == EOF && !puts[i].flush.succeeds)
  }

  /** After any sequence of calls, with flushes failing or falling short at will, the file followed by the buffer
      holds the bytes of the successful calls in order, and the pointer is inside the buffer. */
  lemma {:induction false} OutputIsTheBytesPut(o: Out, puts: seq<Put>)
    requires OutOk(o)
    ensures
      var (o', rs) := PutAll(o, puts);
      && |rs| == |puts| && OutOk(o')
      && Written(o') == Written(o) + Accepted(puts, rs)
      && Results(puts, rs)
    decreases |puts|
  {
    if puts != [] {
      PutAppends(o, puts[0]);
      var (o1, r) := PutStep(o, puts[0]);
      OutputIsTheBytesPut(o1, puts[1..]);
      var (o2, rs) := PutAll(o1, puts[1..]);
      AcceptedFirst(Written(o), puts, r, rs);
      assert Results(puts[1..], rs) && Results(puts[..1], [r]);
      assert puts == puts[..1] + puts[1..];
    }
  }

  lemma AcceptedFirst(before: seq<byte>, puts: seq<Put>, r: int, rs: seq<int>)
    requires puts != [] && |puts| == 1 + |rs|
    ensures
      var first := if r == EOF then [] else [ToByte(puts[0].ch)];
      before + Accepted(puts, [r] + rs) == before + first + Accepted(puts[1..], rs)
  {
    assert ([r] + rs)[1..] == rs;
  }

  /** As many calls as the count says go into the buffer, whatever a flush would do, and leave the
      file alone. */
  lemma {:induction false} CountedPutsAreBuffered(o: Out, puts: seq<Put>)
    requires OutOk(o) && |puts| <= o.cnt
    ensures
      var (o', rs) := PutAll(o, puts);
      && o'.file == o.file && o'.cnt == o.cnt - |puts| && |rs| == |puts|
      && forall i :: 0 <= i < |puts| ==> rs[i] == puts[i].ch % 256
    decreases |puts|
  {
    if puts != [] {
      PutAppends(o, puts[0]);
      CountedPutsAreBuffered(PutStep(o, puts[0]).0, puts[1..]);
    }
  }

  class OutFile {
    const buf: array<byte>
    var ptr: nat
    var cnt: int
    var file: seq<byte>

    ghost function Snapshot(): Out
      reads this, buf
    {
      Out(buf[..], ptr, cnt, file)
    }

    constructor (size: nat)
      requires size > 0
      ensures OutOk(Snapshot()) && Written(Snapshot()) == [] && fresh(buf)
    {
      buf := new byte[size](_ => 0);
      ptr, cnt, file := 0, 0, [];
    }

    /** The store behind the pointer, and its value */
    method Store(ch: int) returns (r: int)
      requires ptr < buf.Length
      modifies this`ptr, buf
      ensures Snapshot() == Stored(old(Snapshot()), ToByte(ch), cnt) && r == ToByte(ch) as int
    {
      buf[ptr] := ToByte(ch);
      r := buf[ptr] as int;
      ptr := ptr + 1;
    }

    /** Moves the bytes from the k-th on to the front of the buffer. */
    method MoveToFront(k: nat)
      requires k <= ptr <= buf.Length
      modifies buf
      ensures buf[..] == old(buf[k..ptr] + buf[ptr - k..])
    {
      for i := 0 to ptr - k
        invariant buf[..i] == old(buf[k..k + i]) && buf[i..] == old(buf[i..])
      {
        assert buf[k + i] == buf[i..][k];
        buf[i] := buf[k + i];
      }
      assert buf[..] == buf[..ptr - k] + buf[ptr - k..];
    }

    method WriteOut(k: nat)
      requires k <= ptr <= buf.Length
      modifies this, buf
      ensures Snapshot() == WrittenOut(old(Snapshot()), k)
    {
      file := file + buf[..k];
      MoveToFront(k);
      ptr, cnt := ptr - k, 0;
    }

    /** _flsbuf, as it is assumed to be */
    method FlsBuf(ch: int, f: Flush) returns (r: int)
      requires ptr <= buf.Length && buf.Length > 0
      modifies this, buf
      ensures (Snapshot(), r) == FlushBuf(old(Snapshot()), Put(ch, f))
    {
      var k := FlushSize(ptr, buf.Length, f);
      WriteOut(k);
      r := EOF;
      if f.succeeds {
        cnt := Least(f.room, buf.Length - ptr - 1);
        r := Store(ch);
      }
    }

    /** putc_unlocked, fputc_unlocked and _fputc_nolock */
    method Putc(ch: int, f: Flush) returns (r: int)
      requires OutOk(Snapshot())
      modifies this, buf
      ensures (Snapshot(), r) == PutStep(old(Snapshot()), Put(ch, f))
    {
      cnt := cnt - 1;
      assert Snapshot() == old(Snapshot()).(cnt := cnt);
      if cnt >= 0 {
        r := Store(ch);
      } else {
        FlushIgnoresCount(old(Snapshot()), Put(ch, f), cnt);
        r := FlsBuf(ch, f);
      }
    }
  }

  // ---- Input --------------------------------------------------------------------------------

  /** A stream open for reading. `rest` is what the buffer's owner has not read yet. */
  datatype In = In(buf: seq<byte>, ptr: nat, cnt: int, rest: seq<byte>)

  ghost predicate InOk(i: In) {
    |i.buf| > 0 && 0 <= i.cnt && i.ptr + i.cnt <= |i.buf|
  }

  /** What the caller has not read yet. */
  function Unread(i: In): seq<byte>
    requires 0 <= i.cnt && i.ptr + i.cnt <= |i.buf|
  {
    i.buf[i.ptr..i.ptr + i.cnt] + i.rest
  }

  /** How much one refill reads: at least a byte, at most what is left and what fits, and
      otherwise as much as the file happens to deliver. */
  function RefillSize(i: In, want: nat): (k: nat)
    requires i.rest != [] && |i.buf| > 0
    ensures 1 <= k <= |i.rest| && k <= |i.buf|
  {
    var k := if want == 0 then 1 else want;
    var k := if k < |i.rest| then k else |i.rest|;
    if k < |i.buf| then k else |i.buf|
  }

  /** What is assumed of _filbuf: it refills the buffer and returns its first byte, or reports the
      end of the file and leaves a count of 0. */
  function FillBuf(i: In, want: nat): (In, int)
    requires |i.buf| > 0
  {
    if i.rest == [] then (i.(cnt := 0), EOF)
    else
      var k := RefillSize(i, want);
      (In(i.rest[..k] + i.buf[k..], 1, k - 1, i.rest[k..]), i.rest[0] as int)
  }

  function GetStep(i: In, want: nat): (In, int)
    requires InOk(i)
  {
    if i.cnt > 0 then (i.(ptr := i.ptr + 1, cnt := i.cnt - 1), i.buf[i.ptr] as int) else FillBuf(i, want)
  }

  lemma GetTakesTheNext(i: In, want: nat)
    requires InOk(i)
    ensures
      var (i', r) := GetStep(i, want);
      && InOk(i')
      && (Unread(i) == [] ==> r == EOF && Unread(i') == [])
      && (Unread(i) != [] ==> r == Unread(i)[0] as int && Unread(i') == Unread(i)[1..])
  {
    var (i', r) := GetStep(i, want);
    if i.cnt > 0 {
      assert i.buf[i.ptr..i.ptr + i.cnt][1..] == i'.buf[i'.ptr..i'.ptr + i'.cnt];
    } else if i.rest != [] {
      var k := RefillSize(i, want);
      assert Unread(i) == i.rest;
      assert i'.buf[1..k] == i.rest[1..k];
      assert i.rest[1..] == i.rest[1..k] + i.rest[k..];
    }
  }

  function GetAll(i: In, wants: seq<nat>): seq<int>
    requires InOk(i)
    decreases |wants|
  {
    if wants == [] then [] else
    GetTakesTheNext(i, wants[0]);
    var (i1, r) := GetStep(i, wants[0]);
    [r] + GetAll(i1, wants[1..])
  }

  /** Whatever the sizes of the refills, the calls return the bytes of the file in order, none lost
      and none repeated, and the end of the file from then on. */
  lemma {:induction false} InputIsTheFile(i: In, wants: seq<nat>)
    requires InOk(i)
    ensures
      var rs := GetAll(i, wants);
      && |rs| == |wants|
      && forall n :: 0 <= n < |rs| ==> rs[n] == if n < |Unread(i)| then Unread(i)[n] as int else EOF
    decreases |wants|
  {
    if wants != [] {
      GetTakesTheNext(i, wants[0]);
      var (i1, r) := GetStep(i, wants[0]);
      InputIsTheFile(i1, wants[1..]);
    }
  }

  /** The stream after some calls. */
  function GetsFrom(i: In, wants: seq<nat>): In
    requires InOk(i)
    decreases |wants|
  {
    if wants == [] then i else
    GetTakesTheNext(i, wants[0]);
    GetsFrom(GetStep(i, wants[0]).0, wants[1..])
  }

  /** As many calls as the count says are served from the buffer. */
  lemma {:induction false} CountedGetsAreBuffered(i: In, wants: seq<nat>)
    requires InOk(i) && |wants| <= i.cnt
    ensures var i' := GetsFrom(i, wants); i'.rest == i.rest && i'.buf == i.buf && i'.cnt == i.cnt - |wants|
    decreases |wants|
  {
    if wants != [] {
      GetTakesTheNext(i, wants[0]);
      CountedGetsAreBuffered(GetStep(i, wants[0]).0, wants[1..]);
    }
  }

  class InFile {
    const buf: array<byte>
    var ptr: nat
    var cnt: int
    var rest: seq<byte>

    ghost function Snapshot(): In
      reads this, buf
    {
      In(buf[..], ptr, cnt, rest)
    }

    constructor (size: nat, contents: seq<byte>)
      requires size > 0
      ensures InOk(Snapshot()) && Unread(Snapshot()) == contents && fresh(buf)
    {
      buf := new byte[size](_ => 0);
      ptr, cnt, rest := 0, 0, contents;
    }

    /** _filbuf, as it is assumed to be */
    method FilBuf(want: nat) returns (r: int)
      requires buf.Length > 0
      modifies this, buf
      ensures (Snapshot(), r) == FillBuf(old(Snapshot()), want)
    {
      if rest == [] {
        cnt := 0;
        return EOF;
      }
      var read := rest;
      var k := RefillSize(In(buf[..], ptr, cnt, rest), want);
      for j := 0 to k
        invariant buf[..j] == read[..j] && buf[j..] == old(buf[j..])
        modifies buf
      {
        buf[j] := read[j];
      }
      assert buf[..] == buf[..k] + buf[k..];
      ptr, cnt, rest := 1, k - 1, read[k..];
      r := buf[0] as int;
    }

    /** fgetc_unlocked and _fgetc_nolock */
    method Getc(want: nat) returns (r: int)
      requires InOk(Snapshot())
      modifies this, buf
      ensures (Snapshot(), r) == GetStep(old(Snapshot()), want)
    {
      cnt := cnt - 1;
      if cnt >= 0 {
        r := buf[ptr] as int;
        ptr := ptr + 1;
      } else {
        r := FilBuf(want);
      }
    }
  }

  // ---- Counts -------------------------------------------------------------------------------

  /** The element count that fread_s and _fread_nolock_s pass on. */
  function ClampedCount(bufSize: nat, elemSize: nat, elemCount: nat): (n: nat)
    requires elemSize > 0
  {
    var bufElems := bufSize / elemSize;
    if bufElems < elemCount then bufElems else elemCount
  }

  /** It is the greatest count of whole elements that was asked for and that the buffer holds. */
  lemma ClampIsGreatest(bufSize: nat, elemSize: nat, elemCount: nat, k: nat)
    requires elemSize > 0
    ensures
      k <= ClampedCount(bufSize, elemSize, elemCount) <==> k <= elemCount && k * elemSize <= bufSize
  {
    var q := bufSize / elemSize;
    if k <= q {
      MulMonotone(k, q, elemSize);
    } else {
      MulMonotone(q + 1, k, elemSize);
    }
  }

  lemma MulMonotone(a: nat, b: nat, c: nat)
    requires a <= b
    ensures a * c <= b * c
  {
    assert b * c == a * c + (b - a) * c;
  }

  /** What the narrow and the wide bounded printers return for an output of `length` characters
      into a buffer of `bufSize` with a limit of `bufLen`. */
  function NarrowResult(length: nat, bufSize: nat, bufLen: nat): int {
    if length < bufLen then length else -1
  }

  function WideResult(length: nat, bufSize: nat, bufLen: nat): int {
    var room := if bufSize < bufLen then bufSize else bufLen;
    if length < room then length else -1
  }

  /** Each returns the length where that is below its bound, and -1 elsewhere. Only the wide one
      reports the outputs that the limit allows and the buffer does not hold. */
  lemma PrintersDisagreeExactly(length: nat, bufSize: nat, bufLen: nat)
    ensures NarrowResult(length, bufSize, bufLen) == -1 <==> length >= bufLen
    ensures WideResult(length, bufSize, bufLen) == -1 <==> length >= bufLen || length >= bufSize
    ensures length < bufLen ==> NarrowResult(length, bufSize, bufLen) == length
    ensures length < bufLen && length < bufSize ==> WideResult(length, bufSize, bufLen) == length
    ensures NarrowResult(length, bufSize, bufLen) != WideResult(length, bufSize, bufLen) <==> bufSize <= length < bufLen
  {
  }
}
