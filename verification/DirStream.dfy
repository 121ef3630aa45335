/** Directory streams over the find-first/find-next service of DOS: opendir buffers one entry,
    readdir hands it out first and then advances, and any of the services underneath may fail. */
module DirStream {
  import opened Basics

  /** What the find service reports for one directory entry. */
  datatype Entry = Entry(attrib: nat, size: nat, name: string)

  /** struct __dirstream, with the fields of its embedded struct dirent */
  datatype Dir = Dir(hnd: int, isFirst: bool, ino: int, ent: Entry)

  /** An entry as readdir returns it: its number in `d_ino` and its data, or no entry. */
  type Reply = Option<(int, Entry)>

  /** For the record: what a stream iterates over, and of its readdir calls whether find-next
      worked and what they returned. */
  datatype Stream = Stream(listing: seq<Entry>, works: seq<bool>, replies: seq<Reply>)

  /** Live allocations, the stream records among them, and the entries that each open find handle
      has still to report. `queries` are the patterns that the find service has been given. For
      the record: `streams`, and the stream for which each handle was opened. */
  datatype Sys = Sys(
    allocs: set<int>, dirs: map<int, Dir>, finds: map<int, seq<Entry>>, queries: seq<string>,
    streams: map<int, Stream>, owners: map<int, int>)

  /** A call with the answers of the services underneath: the two allocations of opendir, the
      handle and listing of find-first, and whether find-next works. Address 0 is the null
      pointer. */
  datatype Op =
    | Open(name: string, query: Option<int>, dir: Option<int>, found: Option<(int, seq<Entry>)>)
    | Read(dirp: int, works: bool)
    | Close(dirp: int)

  /** The width of `d_ino` */
  const INO_MODULUS := 0x10000

  // ---- One call -----------------------------------------------------------------------------

  ghost predicate Legal(sys: Sys, op: Op) {
    match op
    case Open(name, query, dir, found) =>
      && '\0' !in name
      && (query.Some? ==> query.value != 0 && query.value !in sys.allocs)
      && (query.Some? && dir.Some? ==> dir.value != 0 && dir.value !in sys.allocs + {query.value})
      && (found.Some? ==> found.value.0 != -1 && found.value.0 !in sys.finds && found.value.1 != [])
    case Read(dirp, _) => dirp == 0 || dirp in sys.streams
    case Close(dirp) => dirp == 0 || dirp in sys.streams
  }

  function OpenStep(sys: Sys, op: Op): Sys
    requires op.Open?
  {
    if op.query.None? || op.dir.None? then sys else
    var asked := sys.(queries := sys.queries + [op.name + "\\*"]);
    if op.found.None? || op.found.value.1 == [] then asked else
    var (hnd, listing) := op.found.value;
    asked.(allocs := sys.allocs + {op.dir.value},
           dirs := sys.dirs[op.dir.value := Dir(hnd, true, 0, listing[0])],
           finds := sys.finds[hnd := listing[1..]],
           owners := sys.owners[hnd := op.dir.value],
           streams := sys.streams[op.dir.value := Stream(listing, [], [])])
  }

  /** What readdir returns and leaves in the record and in the find service. */
  function ReadReply(d: Dir, rest: seq<Entry>, works: bool): (Reply, Dir, seq<Entry>) {
    if d.isFirst then (Some((d.ino, d.ent)), d.(isFirst := false), rest)
    else if !works || rest == [] then (None, d, rest)
    else
      var ino := (d.ino + 1) % INO_MODULUS;
      (Some((ino, rest[0])), Dir(d.hnd, false, ino, rest[0]), rest[1..])
  }

  /** One more readdir call on the record */
  function Extended(s: Stream, works: bool, reply: Reply): Stream {
    s.(works := s.works + [works], replies := s.replies + [reply])
  }

  function ReadStep(sys: Sys, dirp: int, works: bool): Sys {
    if dirp !in sys.dirs || sys.dirs[dirp].hnd !in sys.finds || dirp !in sys.streams then sys else
    var d := sys.dirs[dirp];
    var (reply, d', rest) := ReadReply(d, sys.finds[d.hnd], works);
    sys.(dirs := sys.dirs[dirp := d'], finds := sys.finds[d.hnd := rest],
         streams := sys.streams[dirp := Extended(sys.streams[dirp], works, reply)])
  }

  function CloseStep(sys: Sys, dirp: int): Sys {
    if dirp !in sys.dirs then sys else
    sys.(allocs := sys.allocs - {dirp}, dirs := sys.dirs - {dirp},
         finds := sys.finds - {sys.dirs[dirp].hnd}, owners := sys.owners - {sys.dirs[dirp].hnd},
         streams := sys.streams - {dirp})
  }

  function Step(sys: Sys, op: Op): Sys {
    match op
    case Open(_, _, _, _) => OpenStep(sys, op)
    case Read(dirp, works) => ReadStep(sys, dirp, works)
    case Close(dirp) => CloseStep(sys, dirp)
  }

  // ---- What holds after every call ----------------------------------------------------------

  /** The first entries of a listing with their numbers */
  function Numbered(listing: seq<Entry>, n: nat): (r: seq<(int, Entry)>)
    requires n <= |listing|
    ensures |r| == n
  {
    seq(n, i requires 0 <= i < n => (i % 0x10000, listing[i]))
  }

  /** The entries among some replies */
  function NonNull(replies: seq<Reply>): (r: seq<(int, Entry)>)
    ensures |r| <= |replies|
  {
    if replies == [] then [] else
    var n := |replies| - 1;
    NonNull(replies[..n]) + if replies[n].Some? then [replies[n].value] else []
  }

  /** What a stream owes its reader: the entries it has returned are the first of the listing, in
      order, each once and with its number; and it returned null only where find-next failed or
      everything had been returned. */
  ghost predicate Faithful(s: Stream) {
    var n := |NonNull(s.replies)|;
    && |s.works| == |s.replies|
    && n <= |s.listing| && NonNull(s.replies) == Numbered(s.listing, n)
    && forall i :: 0 <= i < |s.replies| ==> NullWhenDue(s, i)
  }

  ghost predicate NullWhenDue(s: Stream, i: nat)
    requires i < |s.replies| == |s.works|
  {
    s.replies[i].None? <==> i > 0 && (!s.works[i] || |NonNull(s.replies[..i])| == |s.listing|)
  }

  /** Plain iteration over a list: entry number i in the i-th reply, and nothing after the end. */
  function Iterated(listing: seq<Entry>, n: nat): (r: seq<Reply>)
    ensures |r| == n
  {
    seq(n, i requires 0 <= i < n => if i < |listing| then Some((i % 0x10000, listing[i])) else None)
  }

  predicate NeverFails(s: Stream) {
    forall i :: 0 <= i < |s.works| ==> s.works[i]
  }

  /** Where find-next never fails that is plain iteration. */
  lemma FaithfulIterates(s: Stream)
    requires |s.listing| > 0 && Faithful(s) && NeverFails(s)
    ensures s.replies == Iterated(s.listing, |s.replies|)
  {
    forall i | 0 <= i < |s.replies| ensures s.replies[i] == Iterated(s.listing, |s.replies|)[i] {
      CountReturned(s, i);
      assert NullWhenDue(s, i);
      if s.replies[i].Some? { NonNullAt(s.replies, i); }
    }
  }

  lemma PrefixGrows(replies: seq<Reply>, i: nat)
    requires i < |replies|
    ensures |NonNull(replies[..i + 1])| == |NonNull(replies[..i])| + if replies[i].Some? then 1 else 0
  {
    assert replies[..i + 1][..i] == replies[..i];
  }

  lemma {:induction false} CountReturned(s: Stream, i: nat)
    requires |s.listing| > 0 && Faithful(s) && NeverFails(s) && i <= |s.replies|
    ensures |NonNull(s.replies[..i])| == if i < |s.listing| then i else |s.listing|
  {
    if i > 0 {
      CountReturned(s, i - 1);
      PrefixGrows(s.replies, i - 1);
      assert NullWhenDue(s, i - 1) && s.works[i - 1];
    }
  }

  lemma {:induction false} NonNullAt(replies: seq<Reply>, i: nat)
    requires i < |replies| && replies[i].Some?
    ensures
      var k := |NonNull(replies[..i])|;
      k < |NonNull(replies)| && NonNull(replies)[k] == replies[i].value
    decreases |replies|
  {
    var n := |replies| - 1;
    if i < n {
      NonNullAt(replies[..n], i);
      assert replies[..n][..i] == replies[..i];
    }
  }

  /** The stream record and the find handle stand after `n` entries. The one in the record is the
      last one handed out, or the first one when none has been. */
  ghost predicate Standing(d: Dir, rest: seq<Entry>, listing: seq<Entry>, n: nat) {
    && n <= |listing| && |listing| > 0
    && (d.isFirst <==> n == 0)
    && var k := if n == 0 then 1 else n;
       d.ent == listing[k - 1] && d.ino == (k - 1) % INO_MODULUS && rest == listing[k..]
  }

  /** They stand where the replies so far have brought them. */
  ghost predicate InStep(d: Dir, rest: seq<Entry>, s: Stream) {
    var n := |NonNull(s.replies)|;
    Faithful(s) && (n == 0 <==> s.replies == []) && Standing(d, rest, s.listing, n)
  }

  /** A stream has its record and a find handle of its own, and they are in step. */
  ghost predicate StreamOk(sys: Sys, a: int) {
    && a != 0 && a in sys.streams && a in sys.dirs
    && var d := sys.dirs[a];
       && d.hnd in sys.finds && d.hnd in sys.owners && sys.owners[d.hnd] == a
       && InStep(d, sys.finds[d.hnd], sys.streams[a])
  }

  ghost predicate HandleOk(sys: Sys, h: int) {
    h in sys.owners && sys.owners[h] in sys.dirs && sys.dirs[sys.owners[h]].hnd == h
  }

  ghost predicate Inv(sys: Sys) {
    && sys.allocs == sys.dirs.Keys == sys.streams.Keys
    && (forall a :: a in sys.dirs ==> StreamOk(sys, a))
    && (forall h :: h in sys.finds ==> HandleOk(sys, h))
  }

  lemma ReadKeepsInStep(d: Dir, rest: seq<Entry>, s: Stream, works: bool)
    requires InStep(d, rest, s)
    ensures
      var (reply, d', rest') := ReadReply(d, rest, works);
      InStep(d', rest', Extended(s, works, reply)) && d'.hnd == d.hnd
  {
    ReadAdvances(d, rest, s.listing, |NonNull(s.replies)|, works);
    FaithfulExtended(s, works, ReadReply(d, rest, works).0);
  }

  lemma ReadAdvances(d: Dir, rest: seq<Entry>, listing: seq<Entry>, n: nat, works: bool)
    requires Standing(d, rest, listing, n)
    ensures
      var (reply, d', rest') := ReadReply(d, rest, works);
      && (reply.None? <==> n > 0 && (!works || n == |listing|))
      && (reply.Some? ==> n < |listing| && reply.value == (n % INO_MODULUS, listing[n]))
      && Standing(d', rest', listing, n + if reply.Some? then 1 else 0) && d'.hnd == d.hnd
  {
  }

  lemma FaithfulExtended(s: Stream, works: bool, reply: Reply)
    requires Faithful(s)
    requires
      var n := |NonNull(s.replies)|;
      && (reply.Some? ==> n < |s.listing| && reply.value == (n % INO_MODULUS, s.listing[n]))
      && (reply.None? <==> s.replies != [] && (!works || n == |s.listing|))
    ensures Faithful(Extended(s, works, reply))
    ensures |NonNull(Extended(s, works, reply).replies)| == |NonNull(s.replies)| + if reply.Some? then 1 else 0
  {
    var n := |NonNull(s.replies)|;
    var s' := Extended(s, works, reply);
    ExtendedReplies(s, works, reply);
    if reply.Some? {
      assert Numbered(s.listing, n) + [reply.value] == Numbered(s.listing, n + 1);
    }
    forall i | 0 <= i < |s'.replies| ensures NullWhenDue(s', i) {
      assert i < |s.replies| ==> NullWhenDue(s, i);
      DueExtended(s, works, reply, i);
    }
  }

  lemma DueExtended(s: Stream, works: bool, reply: Reply, i: nat)
    requires i <= |s.replies| == |s.works|
    requires i < |s.replies| ==> NullWhenDue(s, i)
    requires
      i == |s.replies| ==>
        (reply.None? <==> s.replies != [] && (!works || |NonNull(s.replies)| == |s.listing|))
    ensures NullWhenDue(Extended(s, works, reply), i)
  {
    assert Extended(s, works, reply).replies[..i] == s.replies[..i];
    assert i == |s.replies| ==> s.replies[..i] == s.replies;
  }

  lemma ExtendedReplies(s: Stream, works: bool, reply: Reply)
    ensures
      var s' := Extended(s, works, reply);
      && NonNull(s'.replies) == NonNull(s.replies) + (if reply.Some? then [reply.value] else [])
      && forall i :: 0 <= i <= |s.replies| ==> s'.replies[..i] == s.replies[..i]
  {
    assert Extended(s, works, reply).replies[..|s.replies|] == s.replies;
  }

  lemma OpenKeepsInv(sys: Sys, op: Op)
    requires Inv(sys) && op.Open? && Legal(sys, op)
    ensures Inv(OpenStep(sys, op))
  {
    var sys' := OpenStep(sys, op);
    forall a | a in sys'.dirs ensures StreamOk(sys', a) {
      assert a in sys.dirs ==> StreamOk(sys, a);
    }
    forall h | h in sys'.finds ensures HandleOk(sys', h) {
      assert h in sys.finds ==> HandleOk(sys, h);
    }
  }

  lemma ReadKeepsInv(sys: Sys, dirp: int, works: bool)
    requires Inv(sys)
    ensures Inv(ReadStep(sys, dirp, works))
  {
    if dirp in sys.dirs {
      var sys' := ReadStep(sys, dirp, works);
      assert StreamOk(sys, dirp);
      forall a | a in sys'.dirs ensures StreamOk(sys', a) {
        assert StreamOk(sys, a);
        ReadKeepsStream(sys, dirp, works, a);
      }
      forall h | h in sys'.finds ensures HandleOk(sys', h) {
        assert HandleOk(sys, h);
      }
    }
  }

  lemma ReadKeepsStream(sys: Sys, dirp: int, works: bool, a: int)
    requires StreamOk(sys, dirp) && StreamOk(sys, a)
    ensures StreamOk(ReadStep(sys, dirp, works), a)
  {
    if a == dirp {
      ReadKeepsInStep(sys.dirs[a], sys.finds[sys.dirs[a].hnd], sys.streams[a], works);
    }
  }

  lemma CloseKeepsInv(sys: Sys, dirp: int)
    requires Inv(sys)
    ensures Inv(CloseStep(sys, dirp))
  {
    if dirp in sys.dirs {
      var sys' := CloseStep(sys, dirp);
      assert StreamOk(sys, dirp);
      forall a | a in sys'.dirs ensures StreamOk(sys', a) {
        assert StreamOk(sys, a);
      }
      forall h | h in sys'.finds ensures HandleOk(sys', h) {
        assert HandleOk(sys, h);
      }
    }
  }

  lemma StepKeepsInv(sys: Sys, op: Op)
    requires Inv(sys) && Legal(sys, op)
    ensures Inv(Step(sys, op))
  {
    match op
    case Open(_, _, _, _) => OpenKeepsInv(sys, op);
    case Read(dirp, works) => ReadKeepsInv(sys, dirp, works);
    case Close(dirp) => CloseKeepsInv(sys, dirp);
  }

  // ---- Runs ---------------------------------------------------------------------------------

  function Run(sys: Sys, ops: seq<Op>): Sys
    decreases |ops|
  {
    if ops == [] then sys else Run(Step(sys, ops[0]), ops[1..])
  }

  ghost predicate LegalRun(sys: Sys, ops: seq<Op>)
    decreases |ops|
  {
    ops != [] ==> Legal(sys, ops[0]) && LegalRun(Step(sys, ops[0]), ops[1..])
  }

  const EMPTY := Sys({}, map[], map[], [], map[], map[])

  // ---- What the calls leave open, from the calls alone --------------------------------------

  /** A directory that was opened and not closed since: its find handle, its listing, and of each
      readdir call since whether find-next worked. */
  datatype Opened = Opened(hnd: int, listing: seq<Entry>, works: seq<bool>)

  ghost function OpenedBy(open: map<int, Opened>, op: Op): map<int, Opened> {
    match op
    case Open(_, query, dir, found) =>
      if query.Some? && dir.Some? && found.Some? then
        open[dir.value := Opened(found.value.0, found.value.1, [])]
      else open
    case Read(dirp, works) =>
      if dirp in open then open[dirp := open[dirp].(works := open[dirp].works + [works])] else open
    case Close(dirp) => open - {dirp}
  }

  ghost function OpenAfter(open: map<int, Opened>, ops: seq<Op>): map<int, Opened>
    decreases |ops|
  {
    if ops == [] then open else OpenAfter(OpenedBy(open, ops[0]), ops[1..])
  }

  /** The patterns that these calls ask the find service for */
  ghost function AskedFor(ops: seq<Op>): seq<string> {
    if ops == [] then [] else
    var op := ops[0];
    (if op.Open? && op.query.Some? && op.dir.Some? then [op.name + "\\*"] else []) + AskedFor(ops[1..])
  }

  ghost function Handles(open: map<int, Opened>): set<int> {
    set a | a in open :: open[a].hnd
  }

  /** The system holds what is open and nothing else. */
  ghost predicate HoldsOpen(sys: Sys, open: map<int, Opened>) {
    && sys.allocs == sys.dirs.Keys == sys.streams.Keys == open.Keys
    && forall a :: a in open ==> Agrees(sys, a, open[a])
  }

  ghost predicate Agrees(sys: Sys, a: int, o: Opened) {
    && a in sys.dirs && a in sys.streams
    && sys.dirs[a].hnd == o.hnd && sys.streams[a].listing == o.listing && sys.streams[a].works == o.works
  }

  lemma OpenHolds(sys: Sys, open: map<int, Opened>, op: Op)
    requires Inv(sys) && HoldsOpen(sys, open) && op.Open? && Legal(sys, op)
    ensures HoldsOpen(Step(sys, op), OpenedBy(open, op))
  {
    var sys', open' := Step(sys, op), OpenedBy(open, op);
    forall a | a in open' ensures Agrees(sys', a, open'[a]) {
      assert a in open ==> Agrees(sys, a, open[a]);
    }
  }

  lemma ReadHolds(sys: Sys, open: map<int, Opened>, op: Op)
    requires Inv(sys) && HoldsOpen(sys, open) && op.Read? && Legal(sys, op)
    ensures HoldsOpen(Step(sys, op), OpenedBy(open, op))
  {
    var sys', open' := Step(sys, op), OpenedBy(open, op);
    if op.dirp in sys.dirs {
      assert StreamOk(sys, op.dirp);
      forall a | a in open' ensures Agrees(sys', a, open'[a]) {
        assert Agrees(sys, a, open[a]);
        ReadKeepsHandle(sys.dirs[op.dirp], sys.finds[sys.dirs[op.dirp].hnd], op.works);
      }
    }
  }

  lemma ReadKeepsHandle(d: Dir, rest: seq<Entry>, works: bool)
    ensures ReadReply(d, rest, works).1.hnd == d.hnd
  {
  }

  lemma CloseHolds(sys: Sys, open: map<int, Opened>, op: Op)
    requires Inv(sys) && HoldsOpen(sys, open) && op.Close? && Legal(sys, op)
    ensures HoldsOpen(Step(sys, op), OpenedBy(open, op))
  {
    var sys', open' := Step(sys, op), OpenedBy(open, op);
    forall a | a in open' ensures Agrees(sys', a, open'[a]) {
      assert Agrees(sys, a, open[a]);
    }
  }

  lemma StepHolds(sys: Sys, open: map<int, Opened>, op: Op)
    requires Inv(sys) && HoldsOpen(sys, open) && Legal(sys, op)
    ensures HoldsOpen(Step(sys, op), OpenedBy(open, op))
    ensures Step(sys, op).queries == sys.queries + AskedFor([op])
  {
    match op
    case Open(_, _, _, _) => OpenHolds(sys, open, op);
    case Read(_, _) => ReadHolds(sys, open, op);
    case Close(_) => CloseHolds(sys, open, op);
  }

  lemma {:induction false} RunHolds(sys: Sys, open: map<int, Opened>, ops: seq<Op>)
    requires Inv(sys) && HoldsOpen(sys, open) && LegalRun(sys, ops)
    ensures Inv(Run(sys, ops)) && HoldsOpen(Run(sys, ops), OpenAfter(open, ops))
    ensures Run(sys, ops).queries == sys.queries + AskedFor(ops)
    decreases |ops|
  {
    if ops != [] {
      StepKeepsInv(sys, ops[0]);
      StepHolds(sys, open, ops[0]);
      RunHolds(Step(sys, ops[0]), OpenedBy(open, ops[0]), ops[1..]);
      assert AskedFor(ops) == AskedFor([ops[0]]) + AskedFor(ops[1..]);
    }
  }

  /** Over every interleaving of calls on any number of streams, with the services underneath
      failing at will: the allocations and find handles that are left are those of the directories
      that were opened and not closed since, one each; and of each of these the replies so far are
      the first entries of what find-first answered, in order, one a call and each once, with null
      only for a failure or past the end. */
  lemma StreamsIterateAndNothingLeaks(ops: seq<Op>)
    requires LegalRun(EMPTY, ops)
    ensures
      var end, open := Run(EMPTY, ops), OpenAfter(map[], ops);
      && end.allocs == end.streams.Keys == open.Keys
      && end.finds.Keys == Handles(open)
      && (forall a, b :: a in open && b in open && open[a].hnd == open[b].hnd ==> a == b)
      && (forall a :: a in open ==>
            && Faithful(Stream(open[a].listing, open[a].works, end.streams[a].replies))
            && PlainUnlessFailing(end.streams[a]))
      && end.queries == AskedFor(ops)
  {
    RunHolds(EMPTY, map[], ops);
    InvMeans(Run(EMPTY, ops), OpenAfter(map[], ops));
  }

  ghost predicate PlainUnlessFailing(s: Stream) {
    NeverFails(s) ==> s.replies == Iterated(s.listing, |s.replies|)
  }

  lemma InvMeans(sys: Sys, open: map<int, Opened>)
    requires Inv(sys) && HoldsOpen(sys, open)
    ensures sys.finds.Keys == Handles(open)
    ensures forall a, b :: a in open && b in open && open[a].hnd == open[b].hnd ==> a == b
    ensures forall a :: a in open ==>
              && Faithful(Stream(open[a].listing, open[a].works, sys.streams[a].replies))
              && PlainUnlessFailing(sys.streams[a])
  {
    forall a | a in open
      ensures Faithful(Stream(open[a].listing, open[a].works, sys.streams[a].replies))
      ensures PlainUnlessFailing(sys.streams[a])
      ensures open[a].hnd in sys.finds && open[a].hnd in sys.owners && sys.owners[open[a].hnd] == a
    {
      assert Agrees(sys, a, open[a]) && StreamOk(sys, a);
      if NeverFails(sys.streams[a]) { FaithfulIterates(sys.streams[a]); }
    }
    forall h | h in sys.finds ensures h in Handles(open) {
      assert HandleOk(sys, h);
      assert Agrees(sys, sys.owners[h], open[sys.owners[h]]);
    }
  }

  // ---- Closing everything -------------------------------------------------------------------

  ghost function Closes(addresses: seq<int>): seq<Op> {
    seq(|addresses|, i requires 0 <= i < |addresses| => Close(addresses[i]))
  }

  ghost function Elements(addresses: seq<int>): set<int> {
    set a | a in addresses
  }

  lemma {:induction false} ClosedRemain(open: map<int, Opened>, addresses: seq<int>)
    ensures OpenAfter(open, Closes(addresses)).Keys == open.Keys - Elements(addresses)
    decreases |addresses|
  {
    if addresses != [] {
      assert Closes(addresses)[1..] == Closes(addresses[1..]);
      ClosedRemain(open - {addresses[0]}, addresses[1..]);
      assert Elements(addresses) == {addresses[0]} + Elements(addresses[1..]);
    }
  }

  lemma {:induction false} OpenAfterBoth(open: map<int, Opened>, a: seq<Op>, b: seq<Op>)
    ensures OpenAfter(open, a + b) == OpenAfter(OpenAfter(open, a), b)
    decreases |a|
  {
    if a == [] {
      assert a + b == b;
    } else {
      assert (a + b)[1..] == a[1..] + b;
      OpenAfterBoth(OpenedBy(open, a[0]), a[1..], b);
    }
  }

  /** Once every directory that is open has been closed, nothing is allocated and no find handle is
      open. */
  lemma ClosingAllLeavesNothing(ops: seq<Op>, addresses: seq<int>)
    requires LegalRun(EMPTY, ops + Closes(addresses))
    requires forall a :: a in OpenAfter(map[], ops) ==> a in addresses
    ensures var end := Run(EMPTY, ops + Closes(addresses)); end.allocs == {} && end.finds == map[] && end.dirs == map[]
  {
    var all := ops + Closes(addresses);
    StreamsIterateAndNothingLeaks(all);
    RunHolds(EMPTY, map[], all);
    var open := OpenAfter(map[], ops);
    OpenAfterBoth(map[], ops, Closes(addresses));
    ClosedRemain(open, addresses);
    assert open.Keys - Elements(addresses) == {} by {
      forall a | a in open.Keys ensures a in Elements(addresses) { assert a in open; }
    }
    assert OpenAfter(map[], all).Keys == {};
    assert Handles(OpenAfter(map[], all)) == {};
  }

  // ---- The calls as they run ----------------------------------------------------------------

  /** The C string that starts a buffer. */
  function CString(buf: seq<char>): string {
    if buf == [] || buf[0] == '\0' then "" else [buf[0]] + CString(buf[1..])
  }

  lemma {:induction false} CStringOf(s: string, rest: seq<char>)
    requires '\0' !in s
    ensures CString(s + ['\0'] + rest) == s
  {
    if s != "" {
      assert (s + ['\0'] + rest)[1..] == s[1..] + ['\0'] + rest;
      CStringOf(s[1..], rest);
    }
  }

  const EINVAL := 22

  class DirSystem {
    var allocs: set<int>
    var dirs: map<int, Dir>
    var finds: map<int, seq<Entry>>
    var queries: seq<string>
    var errno: int
    ghost var streams: map<int, Stream>
    ghost var owners: map<int, int>

    ghost function Snapshot(): Sys
      reads this
    {
      Sys(allocs, dirs, finds, queries, streams, owners)
    }

    constructor ()
      ensures Snapshot() == EMPTY && Inv(Snapshot())
    {
      allocs, dirs, finds, queries, errno, streams, owners := {}, map[], map[], [], 0, map[], map[];
    }

    /** malloc; 0 when it fails */
    method Malloc(answer: Option<int>) returns (p: int)
      requires answer.Some? ==> answer.value != 0
      modifies this`allocs
      ensures p == if answer.Some? then answer.value else 0
      ensures allocs == if answer.Some? then old(allocs) + {p} else old(allocs)
    {
      p := 0;
      if answer.Some? { p, allocs := answer.value, allocs + {answer.value}; }
    }

    /** find-first: a handle and the first entry, or -1 */
    method FindFirst(pattern: array<char>, answer: Option<(int, seq<Entry>)>) returns (hnd: int, ent: Entry)
      requires answer.Some? ==> answer.value.0 != -1 && answer.value.1 != []
      modifies this`finds, this`queries
      ensures queries == old(queries) + [CString(pattern[..])]
      ensures answer.None? ==> hnd == -1 && finds == old(finds)
      ensures answer.Some? ==> hnd == answer.value.0 && ent == answer.value.1[0]
      ensures answer.Some? ==> finds == old(finds)[hnd := answer.value.1[1..]]
    {
      queries := queries + [CString(pattern[..])];
      hnd, ent := -1, Entry(0, 0, "");
      if answer.Some? {
        hnd, ent := answer.value.0, answer.value.1[0];
        finds := finds[hnd := answer.value.1[1..]];
      }
    }

    method FillQuery(name: string) returns (query: array<char>)
      ensures fresh(query) && query[..] == name + "\\*" + ['\0']
    {
      query := new char[|name| + 3](_ => '?');
      for i := 0 to |name|
        invariant query[..i] == name[..i]
      {
        query[i] := name[i];
      }
      query[|name|] := '\\';
      query[|name| + 1] := '*';
      query[|name| + 2] := '\0';
    }

    /** find-first with the query for everything in a directory */
    method Search(name: string, answer: Option<(int, seq<Entry>)>) returns (hnd: int, ent: Entry)
      requires '\0' !in name && (answer.Some? ==> answer.value.0 != -1 && answer.value.1 != [])
      modifies this`finds, this`queries
      ensures queries == old(queries) + [name + "\\*"]
      ensures answer.None? ==> hnd == -1 && finds == old(finds)
      ensures answer.Some? ==> hnd == answer.value.0 && ent == answer.value.1[0]
      ensures answer.Some? ==> finds == old(finds)[hnd := answer.value.1[1..]]
    {
      var buf := FillQuery(name);
      CStringOf(name + "\\*", []);
      assert buf[..] == name + "\\*" + ['\0'] + [];
      hnd, ent := FindFirst(buf, answer);
    }

    /** opendir. The query buffer is released on every path on which it was obtained. */
    method OpenDir(name: string, q: Option<int>, d: Option<int>, found: Option<(int, seq<Entry>)>) returns (result: int)
      requires Legal(Snapshot(), Open(name, q, d, found))
      modifies this
      ensures Snapshot() == Step(old(Snapshot()), Open(name, q, d, found))
      ensures result == if q.Some? && d.Some? && found.Some? then d.value else 0
      ensures errno == old(errno)
    {
      result := 0;
      var query := Malloc(q);
      if query == 0 { return; }
      result := Malloc(d);
      if result != 0 {
        var hnd, ent := Search(name, found);
        if hnd == -1 {
          allocs := allocs - {result};
          result := 0;
        } else {
          dirs := dirs[result := Dir(hnd, true, 0, ent)];
          streams, owners := streams[result := Stream(found.value.1, [], [])], owners[hnd := result];
        }
      }
      allocs := allocs - {query};
    }

    /** closedir */
    method CloseDir(dirp: int) returns (r: int)
      requires if dirp == 0 then 0 !in dirs else StreamOk(Snapshot(), dirp)
      modifies this
      ensures Snapshot() == Step(old(Snapshot()), Close(dirp))
      ensures if dirp == 0 then r == -1 && errno == EINVAL else r == 0 && errno == old(errno)
    {
      if dirp == 0 {
        errno := EINVAL;
        return -1;
      }
      streams, owners := streams - {dirp}, owners - {dirs[dirp].hnd};
      finds := finds - {dirs[dirp].hnd};
      allocs, dirs := allocs - {dirp}, dirs - {dirp};
      r := 0;
    }

    /** readdir */
    method ReadDir(dirp: int, works: bool) returns (reply: Reply)
      requires if dirp == 0 then 0 !in dirs else StreamOk(Snapshot(), dirp)
      modifies this
      ensures Snapshot() == Step(old(Snapshot()), Read(dirp, works))
      ensures dirp == 0 ==> reply == None
      ensures dirp != 0 ==> dirp in streams && streams[dirp].replies == old(streams[dirp].replies) + [reply]
      ensures errno == if dirp == 0 then EINVAL else old(errno)
    {
      if dirp == 0 {
        errno := EINVAL;
        return None;
      }
      var d := dirs[dirp];
      if !d.isFirst {
        var rest := finds[d.hnd];
        if !works || rest == [] {
          streams := streams[dirp := Extended(streams[dirp], works, None)];
          return None;
        }
        d := d.(ent := rest[0]);
        finds := finds[d.hnd := rest[1..]];
        d := d.(ino := (d.ino + 1) % INO_MODULUS);
      }
      d := d.(isFirst := false);
      dirs := dirs[dirp := d];
      reply := Some((d.ino, d.ent));
      streams := streams[dirp := Extended(streams[dirp], works, reply)];
    }
  }
}
