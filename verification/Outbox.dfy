/** The deduplicating submission queue and its append log, src/store/outbox.h. */
module Outbox {
  import opened Options
  import opened Words
  import CompactSize

  type Header = h: seq<byte> | |h| == 80 witness Zeros(80)

  datatype PendingSubmit = PendingSubmit(workId: word64, nonce: word, header80: Header)

  /** (work_id << 32) ^ nonce in 64 bits. */
  function KeyOf(workId: word64, nonce: word): nat {
    BitXor(workId * UINT32 % UINT64, nonce)
  }

  function Key(s: PendingSubmit): nat {
    KeyOf(s.workId, s.nonce)
  }

  lemma KeyIsSum(workId: word64, nonce: word)
    ensures KeyOf(workId, nonce) == workId % UINT32 * UINT32 + nonce
  {
    hide BitXor;
    Pow2Word();
    XorOfDisjoint(workId % UINT32, nonce, 32);
    assert workId * UINT32 % UINT64 == workId % UINT32 * UINT32;
  }

  /** Two submissions share a key exactly when their nonces are equal and their work ids agree modulo 2^32. */
  lemma KeyExact(s: PendingSubmit, t: PendingSubmit)
    ensures Key(s) == Key(t) <==> s.nonce == t.nonce && s.workId % UINT32 == t.workId % UINT32
  {
    hide BitXor;
    KeyIsSum(s.workId, s.nonce);
    KeyIsSum(t.workId, t.nonce);
  }

  function Keys(q: seq<PendingSubmit>): set<nat> {
    set i | 0 <= i < |q| :: Key(q[i])
  }

  /** The state of an outbox: the queue, front first, and the keys it refuses. */
  datatype Box = Box(q: seq<PendingSubmit>, seen: set<nat>)

  function Enqueued(b: Box, s: PendingSubmit): Box {
    if Key(s) in b.seen then b else Box(b.q + [s], b.seen + {Key(s)})
  }

  function IndexOf(q: seq<PendingSubmit>, workId: word64, nonce: word): (i: nat)
    ensures i <= |q|
    ensures i < |q| ==> q[i].workId == workId && q[i].nonce == nonce
    ensures forall j :: 0 <= j < i ==> !(q[j].workId == workId && q[j].nonce == nonce)
  {
    if |q| == 0 || (q[0].workId == workId && q[0].nonce == nonce) then 0
    else 1 + IndexOf(q[1..], workId, nonce)
  }

  /** The first queued entry with this work id and nonce is removed, and its key is forgotten. */
  function Dropped(b: Box, workId: word64, nonce: word): Box {
    var i := IndexOf(b.q, workId, nonce);
    if i == |b.q| then b else Box(b.q[..i] + b.q[i+1..], b.seen - {Key(b.q[i])})
  }

  // ---- The log ----

  const RECORD := 92

  function Record(s: PendingSubmit): (bytes: seq<byte>)
    ensures |bytes| == RECORD
  {
    LE(s.workId, 8) + LE(s.nonce, 4) + s.header80
  }

  function ParseRecord(bytes: seq<byte>): PendingSubmit
    requires |bytes| == RECORD
  {
    LEBound(bytes[..8]);
    LEBound(bytes[8..12]);
    Powers256();
    PendingSubmit(LEVal(bytes[..8]), LEVal(bytes[8..12]), bytes[12..])
  }

  lemma {:induction false} LEBound(bytes: seq<byte>)
    ensures LEVal(bytes) < Pow256(|bytes|)
  {
    if |bytes| > 0 {
      LEBound(bytes[1..]);
    }
  }

  /** The layout of a record: work id and nonce with their lowest byte first, then the header. */
  lemma RecordLayout(s: PendingSubmit)
    ensures forall i :: 0 <= i < 8 ==> Record(s)[i] == s.workId / Pow256(i) % 256
    ensures forall i :: 0 <= i < 4 ==> Record(s)[8+i] == s.nonce / Pow256(i) % 256
    ensures Record(s)[12..] == s.header80
  {
    hide LE;
    forall i | 0 <= i < 8
      ensures Record(s)[i] == s.workId / Pow256(i) % 256 && (i < 4 ==> Record(s)[8+i] == s.nonce / Pow256(i) % 256)
    {
      CompactSize.LEAt(s.workId, 8, i);
      if i < 4 {
        CompactSize.LEAt(s.nonce, 4, i);
      }
    }
  }

  /** The records appended one after another. */
  function Log(records: seq<PendingSubmit>): (bytes: seq<byte>)
    ensures |bytes| == RECORD * |records|
  {
    if |records| == 0 then [] else Record(records[0]) + Log(records[1..])
  }

  lemma LogStep(bytes: seq<byte>, tmp: seq<PendingSubmit>)
    requires |tmp| > 0
    ensures bytes + Log(tmp) == (bytes + LE(tmp[0].workId, 8) + LE(tmp[0].nonce, 4) + tmp[0].header80) + Log(tmp[1..])
  {
    hide LE;
    assert bytes + (Record(tmp[0]) + Log(tmp[1..])) == (bytes + Record(tmp[0])) + Log(tmp[1..]);
    assert bytes + Record(tmp[0]) == bytes + LE(tmp[0].workId, 8) + LE(tmp[0].nonce, 4) + tmp[0].header80;
  }

  /** The whole records at the start of a file; a cut record at its end is ignored. */
  function Records(file: seq<byte>): seq<PendingSubmit> {
    if |file| < RECORD then [] else [ParseRecord(file[..RECORD])] + Records(file[RECORD..])
  }

  /** An empty outbox after each record in turn. */
  function Loaded(records: seq<PendingSubmit>): Box {
    if |records| == 0 then Box([], {}) else Enqueued(Loaded(records[..|records|-1]), records[|records|-1])
  }

  /** The three fields read from position pos of a file. */
  function RecordAt(file: seq<byte>, pos: nat): PendingSubmit
    requires pos + RECORD <= |file|
  {
    ParseRecord(file[pos..pos+RECORD])
  }

  lemma RecordFields(file: seq<byte>, pos: nat)
    requires pos + RECORD <= |file|
    ensures
      var s := RecordAt(file, pos);
      s.workId == LEVal(file[pos..pos+8]) && s.nonce == LEVal(file[pos+8..pos+12]) && s.header80 == file[pos+12..pos+92]
  {
    var bytes := file[pos..pos+RECORD];
    assert bytes[..8] == file[pos..pos+8] && bytes[8..12] == file[pos+8..pos+12] && bytes[12..] == file[pos+12..pos+92];
  }

  lemma RecordsFrom(file: seq<byte>, pos: nat)
    requires pos <= |file|
    ensures Records(file[pos..]) ==
      if pos + RECORD <= |file| then [RecordAt(file, pos)] + Records(file[pos+RECORD..]) else []
  {
    if pos + RECORD <= |file| {
      assert file[pos..][..RECORD] == file[pos..pos+RECORD] && file[pos..][RECORD..] == file[pos+RECORD..];
    }
  }

  /** A given outbox after each record in turn. */
  function LoadInto(b: Box, records: seq<PendingSubmit>): Box
    decreases |records|
  {
    if |records| == 0 then b else LoadInto(Enqueued(b, records[0]), records[1..])
  }

  lemma {:induction false} LoadIntoIs(done: seq<PendingSubmit>, records: seq<PendingSubmit>)
    ensures LoadInto(Loaded(done), records) == Loaded(done + records)
    decreases |records|
  {
    hide Enqueued;
    if |records| == 0 {
      assert done + records == done;
    } else {
      var s := records[0];
      assert (done + [s])[..|done|] == done;
      LoadIntoIs(done + [s], records[1..]);
      assert done + records == done + [s] + records[1..];
    }
  }

  /** Loading goes on with the record at position pos. */
  lemma LoadStep(b: Box, file: seq<byte>, pos: nat)
    requires pos <= |file|
    ensures LoadInto(b, Records(file[pos..])) ==
      if pos + RECORD <= |file| then LoadInto(Enqueued(b, RecordAt(file, pos)), Records(file[pos+RECORD..])) else b
  {
    hide Enqueued, RecordAt;
    RecordsFrom(file, pos);
    if pos + RECORD <= |file| {
      var rest := Records(file[pos+RECORD..]);
      assert ([RecordAt(file, pos)] + rest)[1..] == rest;
    }
  }

  lemma LoadFromStart(file: seq<byte>)
    ensures LoadInto(Box([], {}), Records(file[0..])) == Loaded(Records(file))
  {
    assert file[0..] == file && Loaded([]) == Box([], {});
    LoadIntoIs([], Records(file));
    assert [] + Records(file) == Records(file);
  }

  class Outbox {
    var q: seq<PendingSubmit>
    var seen: set<nat>

    function Contents(): Box
      reads this
    {
      Box(q, seen)
    }

    constructor ()
      ensures Contents() == Box([], {})
    {
      q, seen := [], {};
    }

    method Enqueue(s: PendingSubmit)
      modifies this
      ensures Contents() == Enqueued(old(Contents()), s)
    {
      var key := KeyOf(s.workId, s.nonce);
      if key in seen {
        return;
      }
      seen := seen + {key};
      q := q + [s];
    }

    method TryDequeue() returns (s: Option<PendingSubmit>)
      modifies this
      ensures old(q) == [] ==> s == None && Contents() == old(Contents())
      ensures old(q) != [] ==> s == Some(old(q)[0]) && Contents() == Box(old(q)[1..], old(seen))
    {
      if |q| == 0 {
        return None;
      }
      s := Some(q[0]);
      q := q[1..];
    }

    method Drop(workId: word64, nonce: word) returns (removed: bool)
      modifies this
      ensures Contents() == Dropped(old(Contents()), workId, nonce)
      ensures removed <==> exists i :: 0 <= i < |old(q)| && old(q)[i].workId == workId && old(q)[i].nonce == nonce
    {
      if |q| == 0 {
        return false;
      }
      removed := false;
      var tmp: seq<PendingSubmit> := [];
      ghost var all, at := q, IndexOf(q, workId, nonce);
      ghost var n := 0;
      while |q| > 0
        invariant n <= |all| && q == all[n..]
        invariant removed == (at < n)
        invariant tmp == if at < n then all[..at] + all[at+1..n] else all[..n]
        invariant seen == if at < n then old(seen) - {Key(all[at])} else old(seen)
        decreases |q|
      {
        var s := q[0];
        q := q[1..];
        n := n + 1;
        if !removed && s.workId == workId && s.nonce == nonce {
          removed := true;
          seen := seen - {KeyOf(s.workId, s.nonce)};
        } else {
          tmp := tmp + [s];
        }
      }
      assert all[..n] == all;
      q := tmp;
    }

    /** The file after one more record; None stands for a file that cannot be opened. */
    method AppendToFile(file: Option<seq<byte>>, s: PendingSubmit) returns (ok: bool, file': Option<seq<byte>>)
      ensures ok == file.Some?
      ensures file' == if file.Some? then Some(file.value + Record(s)) else None
    {
      if file.None? {
        return false, None;
      }
      var bytes := file.value + LE(s.workId, 8);
      bytes := bytes + LE(s.nonce, 4);
      bytes := bytes + s.header80;
      assert bytes == file.value + Record(s);
      return true, Some(bytes);
    }

    /** The three reads of the load loop: the next record, or nothing when one of them meets the end of the file. */
    static method ReadRecord(file: seq<byte>, pos: nat) returns (s: Option<PendingSubmit>)
      requires pos <= |file|
      ensures s == if pos + RECORD <= |file| then Some(RecordAt(file, pos)) else None
    {
      hide RecordAt;
      Powers256();
      if pos + 8 > |file| {
        return None;
      }
      LEBound(file[pos..pos+8]);
      var workId := LEVal(file[pos..pos+8]);
      if pos + 12 > |file| {
        return None;
      }
      LEBound(file[pos+8..pos+12]);
      var nonce := LEVal(file[pos+8..pos+12]);
      if pos + 92 > |file| {
        return None;
      }
      RecordFields(file, pos);
      return Some(PendingSubmit(workId, nonce, file[pos+12..pos+92]));
    }

    method LoadFromFile(file: Option<seq<byte>>) returns (ok: bool)
      modifies this
      ensures ok == file.Some?
      ensures Contents() == if file.Some? then Loaded(Records(file.value)) else old(Contents())
    {
      if file.None? {
        return false;
      }
      hide Records, Loaded, LoadInto, RecordAt, KeyOf;
      var bytes := file.value;
      q, seen := [], {};
      LoadFromStart(bytes);
      var pos := 0;
      while true
        invariant 0 <= pos <= |bytes|
        invariant LoadInto(Contents(), Records(bytes[pos..])) == Loaded(Records(bytes))
        decreases |bytes| - pos
      {
        LoadStep(Contents(), bytes, pos);
        var read := ReadRecord(bytes, pos);
        if read.None? {
          break;
        }
        var s := read.value;
        var key := KeyOf(s.workId, s.nonce);
        if key !in seen {
          seen := seen + {key};
          q := q + [s];
        }
        pos := pos + 92;
      }
      return true;
    }

    /** The file after truncating it and writing the whole queue. */
    method RewriteFile(file: Option<seq<byte>>) returns (ok: bool, file': Option<seq<byte>>)
      ensures ok == file.Some?
      ensures file' == if file.Some? then Some(Log(q)) else None
    {
      if file.None? {
        return false, None;
      }
      hide LE, Record;
      var bytes: seq<byte> := [];
      var tmp := q;
      while |tmp| > 0
        invariant bytes + Log(tmp) == Log(q)
        decreases |tmp|
      {
        var s := tmp[0];
        LogStep(bytes, tmp);
        bytes := bytes + LE(s.workId, 8) + LE(s.nonce, 4) + s.header80;
        tmp := tmp[1..];
      }
      assert bytes + Log([]) == bytes;
      return true, Some(bytes);
    }
  }

  // ---- First by key ----

  ghost predicate DistinctKeys(q: seq<PendingSubmit>) {
    forall i, j :: 0 <= i < j < |q| ==> Key(q[i]) != Key(q[j])
  }

  lemma KeysSnoc(rs: seq<PendingSubmit>, s: PendingSubmit)
    ensures Keys(rs + [s]) == Keys(rs) + {Key(s)}
    ensures Key(s) in Keys(rs) <==> exists j :: 0 <= j < |rs| && Key(rs[j]) == Key(s)
  {
    hide Key;
    var all := rs + [s];
    forall k | k in Keys(rs)
      ensures k in Keys(all)
    {
      var i :| 0 <= i < |rs| && Key(rs[i]) == k;
      assert all[i] == rs[i];
    }
    assert all[|rs|] == s;
  }

  /** The submissions whose key no earlier one has, in order. */
  function FirstByKey(rs: seq<PendingSubmit>): seq<PendingSubmit> {
    if |rs| == 0 then []
    else
      var n := |rs| - 1;
      if exists j :: 0 <= j < n && Key(rs[j]) == Key(rs[n]) then FirstByKey(rs[..n]) else FirstByKey(rs[..n]) + [rs[n]]
  }

  /** They have different keys, and all the keys there are. */
  lemma {:induction false} FirstByKeyDistinct(rs: seq<PendingSubmit>)
    ensures DistinctKeys(FirstByKey(rs)) && Keys(FirstByKey(rs)) == Keys(rs)
    decreases |rs|
  {
    hide Key;
    if |rs| > 0 {
      var before, s := rs[..|rs|-1], rs[|rs|-1];
      FirstByKeyDistinct(before);
      KeysSnoc(before, s);
      KeysSnoc(FirstByKey(before), s);
      assert rs == before + [s];
    }
  }

  /** Loading keeps the first record of each key, in order, and refuses exactly the keys it kept. */
  lemma {:induction false} LoadedIs(records: seq<PendingSubmit>)
    ensures Loaded(records) == Box(FirstByKey(records), Keys(records))
    decreases |records|
  {
    hide Key;
    if |records| > 0 {
      var before, s := records[..|records|-1], records[|records|-1];
      assert records == before + [s];
      LoadedIs(before);
      KeysSnoc(before, s);
    }
  }

  // ---- Runs ----

  datatype Op =
    | Enqueue(s: PendingSubmit)
    | TryDequeue
    | Drop(workId: word64, nonce: word)
    | Load(file: seq<byte>)

  /**
   * An outbox and what has happened to it since its file was last loaded: submissions accepted, delivered and dropped,
   * each in order. A load accepts what it queues.
   */
  datatype Trace = Trace(
    box: Box, accepted: seq<PendingSubmit>, delivered: seq<PendingSubmit>, dropped: seq<PendingSubmit>)

  const START := Trace(Box([], {}), [], [], [])

  function Apply(t: Trace, op: Op): Trace {
    match op
    case Enqueue(s) =>
      if Key(s) in t.box.seen then t else t.(box := Enqueued(t.box, s), accepted := t.accepted + [s])
    case TryDequeue =>
      if t.box.q == [] then t
      else t.(box := t.box.(q := t.box.q[1..]), delivered := t.delivered + [t.box.q[0]])
    case Drop(workId, nonce) =>
      var i := IndexOf(t.box.q, workId, nonce);
      if i == |t.box.q| then t
      else t.(box := Dropped(t.box, workId, nonce), dropped := t.dropped + [t.box.q[i]])
    case Load(file) =>
      var box := Loaded(Records(file));
      Trace(box, box.q, [], [])
  }

  function Run(t: Trace, ops: seq<Op>): Trace
    decreases |ops|
  {
    if |ops| == 0 then t else Run(Apply(t, ops[0]), ops[1..])
  }

  /** Delivered and queued submissions have pairwise different keys, exactly the keys seen; none appears or vanishes. */
  ghost predicate RunInv(t: Trace) {
    && DistinctKeys(t.delivered + t.box.q)
    && t.box.seen == Keys(t.delivered + t.box.q)
    && multiset(t.accepted) == multiset(t.delivered) + multiset(t.box.q) + multiset(t.dropped)
  }

  lemma EnqueueInv(t: Trace, s: PendingSubmit)
    requires RunInv(t)
    ensures RunInv(Apply(t, Enqueue(s)))
  {
    hide Key;
    var t' := Apply(t, Enqueue(s));
    if t' != t {
      var all := t.delivered + t.box.q;
      assert t'.delivered + t'.box.q == all + [s];
      KeysSnoc(all, s);
      assert multiset(t'.box.q) == multiset(t.box.q) + multiset{s};
      assert multiset(t'.accepted) == multiset(t.accepted) + multiset{s};
    }
  }

  lemma DequeueInv(t: Trace)
    requires RunInv(t)
    ensures RunInv(Apply(t, TryDequeue))
  {
    hide Key;
    var t' := Apply(t, TryDequeue);
    if t' != t {
      var front := t.box.q[0];
      assert t.box.q == [front] + t'.box.q;
      assert t'.delivered + t'.box.q == t.delivered + t.box.q;
      assert multiset(t.box.q) == multiset{front} + multiset(t'.box.q);
    }
  }

  lemma RemoveDistinct(all: seq<PendingSubmit>, n: nat)
    requires DistinctKeys(all) && n < |all|
    ensures
      var rest := all[..n] + all[n+1..];
      DistinctKeys(rest) && Keys(rest) == Keys(all) - {Key(all[n])}
  {
    hide Key;
    var rest := all[..n] + all[n+1..];
    assert forall k :: 0 <= k < |rest| ==> rest[k] == all[if k < n then k else k + 1];
    forall j | 0 <= j < |all| && j != n
      ensures Key(all[j]) in Keys(rest)
    {
      assert rest[if j < n then j else j - 1] == all[j];
    }
  }

  lemma DropInv(t: Trace, workId: word64, nonce: word)
    requires RunInv(t)
    ensures RunInv(Apply(t, Drop(workId, nonce)))
  {
    hide Key, IndexOf, DistinctKeys, Keys;
    var t' := Apply(t, Drop(workId, nonce));
    if t' != t {
      var q, i := t.box.q, IndexOf(t.box.q, workId, nonce);
      var all, n := t.delivered + q, |t.delivered| + i;
      RemoveDistinct(all, n);
      assert t'.delivered + t'.box.q == all[..n] + all[n+1..] && all[n] == q[i];
      RemoveCounts(q, i);
    }
  }

  lemma LoadInv(t: Trace, file: seq<byte>)
    ensures RunInv(Apply(t, Load(file)))
  {
    hide Key, Loaded, Records, FirstByKey;
    var rs := Records(file);
    LoadedIs(rs);
    FirstByKeyDistinct(rs);
    assert [] + FirstByKey(rs) == FirstByKey(rs);
    assert multiset(FirstByKey(rs)) == multiset([]) + multiset(FirstByKey(rs)) + multiset([]);
  }

  lemma RemoveCounts(q: seq<PendingSubmit>, i: nat)
    requires i < |q|
    ensures multiset(q) == multiset(q[..i] + q[i+1..]) + multiset{q[i]}
  {
    assert q == q[..i] + [q[i]] + q[i+1..];
  }

  lemma {:induction false} RunKeepsInv(t: Trace, ops: seq<Op>)
    requires RunInv(t)
    ensures RunInv(Run(t, ops))
    decreases |ops|
  {
    hide RunInv, Apply;
    if |ops| > 0 {
      match ops[0] {
        case Enqueue(s) => EnqueueInv(t, s);
        case TryDequeue => DequeueInv(t);
        case Drop(workId, nonce) => DropInv(t, workId, nonce);
        case Load(file) => LoadInv(t, file);
      }
      RunKeepsInv(Apply(t, ops[0]), ops[1..]);
    }
  }

  /**
   * Over any run from an empty outbox, between one load and the next: no key is delivered twice, no delivered key is
   * queued again, the keys refused are exactly those delivered or queued, and every submission accepted, or queued by
   * the load, has been delivered, has been dropped, or is still queued.
   */
  lemma AtMostOnce(ops: seq<Op>)
    ensures
      var t := Run(START, ops);
      && DistinctKeys(t.delivered) && DistinctKeys(t.box.q)
      && (forall i, j :: 0 <= i < |t.delivered| && 0 <= j < |t.box.q| ==> Key(t.delivered[i]) != Key(t.box.q[j]))
      && t.box.seen == Keys(t.delivered) + Keys(t.box.q)
      && multiset(t.accepted) == multiset(t.delivered) + multiset(t.box.q) + multiset(t.dropped)
  {
    assert RunInv(START);
    RunKeepsInv(START, ops);
    hide Key, Run;
    var t := Run(START, ops);
    var all := t.delivered + t.box.q;
    assert forall i :: 0 <= i < |t.delivered| ==> all[i] == t.delivered[i];
    assert forall j :: 0 <= j < |t.box.q| ==> all[|t.delivered| + j] == t.box.q[j];
  }

  /** A load queues a key, delivered before or not, exactly when the file has a record of it, and then refuses it. */
  lemma AfterLoad(t: Trace, file: seq<byte>, s: PendingSubmit)
    ensures
      var t' := Apply(t, Load(file));
      && (Key(s) in Keys(t'.box.q) <==> Key(s) in Keys(Records(file)))
      && (Apply(t', Enqueue(s)) == t' <==> Key(s) in Keys(Records(file)))
  {
    hide Key, Loaded, Records, FirstByKey;
    LoadedIs(Records(file));
    FirstByKeyDistinct(Records(file));
  }

  // ---- Order ----

  /** a is b with some elements left out. */
  ghost predicate Subsequence(a: seq<PendingSubmit>, b: seq<PendingSubmit>)
    decreases |b|
  {
    || |a| == 0
    || (|b| > 0 && a[|a|-1] == b[|b|-1] && Subsequence(a[..|a|-1], b[..|b|-1]))
    || (|b| > 0 && Subsequence(a, b[..|b|-1]))
  }

  lemma {:induction false} SubsequenceOfItself(a: seq<PendingSubmit>)
    ensures Subsequence(a, a)
    decreases |a|
  {
    if |a| > 0 {
      SubsequenceOfItself(a[..|a|-1]);
    }
  }

  lemma SubsequenceSnoc(a: seq<PendingSubmit>, b: seq<PendingSubmit>, s: PendingSubmit)
    requires Subsequence(a, b)
    ensures Subsequence(a + [s], b + [s])
  {
    assert (a + [s])[..|a|] == a && (b + [s])[..|b|] == b;
  }

  lemma {:induction false} SubsequenceRemove(a: seq<PendingSubmit>, b: seq<PendingSubmit>, i: nat)
    requires Subsequence(a, b) && i < |a|
    ensures Subsequence(a[..i] + a[i+1..], b)
    decreases |b|
  {
    var rest, a', b' := a[..i] + a[i+1..], a[..|a|-1], b[..|b|-1];
    if a[|a|-1] == b[|b|-1] && Subsequence(a', b') {
      if i == |a| - 1 {
        assert rest == a';
      } else {
        SubsequenceRemove(a', b', i);
        assert rest[..|rest|-1] == a'[..i] + a'[i+1..];
      }
    } else {
      SubsequenceRemove(a, b', i);
    }
  }

  /** What was delivered, followed by what is queued, keeps the order of acceptance. */
  ghost predicate InOrder(t: Trace) {
    Subsequence(t.delivered + t.box.q, t.accepted)
  }

  lemma DropInOrder(t: Trace, workId: word64, nonce: word)
    requires InOrder(t)
    ensures InOrder(Apply(t, Drop(workId, nonce)))
  {
    hide Key, Subsequence, IndexOf;
    var t' := Apply(t, Drop(workId, nonce));
    if t' != t {
      var q, all := t.box.q, t.delivered + t.box.q;
      var i := IndexOf(q, workId, nonce);
      var n := |t.delivered| + i;
      SubsequenceRemove(all, t.accepted, n);
      assert t'.box.q == q[..i] + q[i+1..];
      assert t'.delivered + t'.box.q == all[..n] + all[n+1..];
    }
  }

  lemma ApplyInOrder(t: Trace, op: Op)
    requires InOrder(t)
    ensures InOrder(Apply(t, op))
  {
    hide Key, Subsequence;
    var t', all := Apply(t, op), t.delivered + t.box.q;
    match op {
      case Enqueue(s) =>
        if t' != t {
          SubsequenceSnoc(all, t.accepted, s);
          assert t'.delivered + t'.box.q == all + [s];
        }
      case TryDequeue =>
        assert t'.delivered + t'.box.q == all;
      case Drop(workId, nonce) =>
        DropInOrder(t, workId, nonce);
      case Load(file) =>
        assert [] + t'.box.q == t'.box.q;
        SubsequenceOfItself(t'.box.q);
    }
  }

  /** First in, first out, with drops or without: delivery and queue never overtake the order of acceptance. */
  lemma {:induction false} OrderKept(t: Trace, ops: seq<Op>)
    requires InOrder(t)
    ensures InOrder(Run(t, ops))
    decreases |ops|
  {
    hide InOrder, Apply;
    if |ops| > 0 {
      ApplyInOrder(t, ops[0]);
      OrderKept(Apply(t, ops[0]), ops[1..]);
    }
  }

  /** What the outbox was given: the records of the last file loaded, and the submissions after that. */
  function Submitted(ops: seq<Op>): seq<PendingSubmit> {
    if |ops| == 0 then []
    else
      match ops[|ops|-1]
      case Load(file) => Records(file)
      case Enqueue(s) => Submitted(ops[..|ops|-1]) + [s]
      case _ => Submitted(ops[..|ops|-1])
  }

  lemma {:induction false} RunSnoc(t: Trace, ops: seq<Op>, op: Op)
    ensures Run(t, ops + [op]) == Apply(Run(t, ops), op)
    decreases |ops|
  {
    hide Apply;
    if |ops| == 0 {
      assert (ops + [op])[1..] == [];
    } else {
      assert (ops + [op])[1..] == ops[1..] + [op];
      RunSnoc(Apply(t, ops[0]), ops[1..], op);
    }
  }

  /** The outbox has delivered and holds the first of each key of what it was given, in order. */
  ghost predicate Serves(t: Trace, given: seq<PendingSubmit>) {
    t.delivered + t.box.q == FirstByKey(given) && t.box.seen == Keys(given)
  }

  lemma ServesEnqueue(t: Trace, given: seq<PendingSubmit>, s: PendingSubmit)
    requires Serves(t, given)
    ensures Serves(Apply(t, Enqueue(s)), given + [s])
  {
    hide Key, Keys;
    KeysSnoc(given, s);
    assert (given + [s])[..|given|] == given;
    assert t.delivered + (t.box.q + [s]) == (t.delivered + t.box.q) + [s];
    assert Keys(given) + {Key(s)} == Keys(given) || Key(s) !in Keys(given);
  }

  lemma ServesDequeue(t: Trace, given: seq<PendingSubmit>)
    requires Serves(t, given)
    ensures Serves(Apply(t, TryDequeue), given)
  {
    hide FirstByKey, Keys;
    assert Apply(t, TryDequeue).delivered + Apply(t, TryDequeue).box.q == t.delivered + t.box.q;
  }

  lemma ServesLoad(t: Trace, file: seq<byte>)
    ensures Serves(Apply(t, Load(file)), Records(file))
  {
    hide Records, Loaded, FirstByKey, Keys;
    LoadedIs(Records(file));
    assert [] + FirstByKey(Records(file)) == FirstByKey(Records(file));
  }

  /** Without drops the outbox delivers what it was given first by key, in order, and keeps the rest in order. */
  lemma {:induction false} FirstComeFirstServed(ops: seq<Op>)
    requires forall i :: 0 <= i < |ops| ==> !ops[i].Drop?
    ensures Serves(Run(START, ops), Submitted(ops))
    decreases |ops|
  {
    if |ops| == 0 {
      assert START.delivered + START.box.q == [];
    } else {
      var before, op := ops[..|ops|-1], ops[|ops|-1];
      assert ops == before + [op];
      FirstComeFirstServed(before);
      RunSnoc(START, before, op);
      hide Run, Serves, Apply;
      match op {
        case Enqueue(s) => ServesEnqueue(Run(START, before), Submitted(before), s);
        case TryDequeue => ServesDequeue(Run(START, before), Submitted(before));
        case Load(file) => ServesLoad(Run(START, before), file);
      }
    }
  }

  // ---- The log survives a cut ----

  lemma RecordRoundTrip(s: PendingSubmit)
    ensures ParseRecord(Record(s)) == s
  {
    Powers256();
    LERoundTrip(s.workId, 8);
    LERoundTrip(s.nonce, 4);
    hide LE, LEVal;
    var r := Record(s);
    assert r[..8] == LE(s.workId, 8) && r[8..12] == LE(s.nonce, 4) && r[12..] == s.header80;
  }

  /** Any byte prefix of a log reads back as the records that lie wholly inside it. */
  lemma {:induction false} CutLog(records: seq<PendingSubmit>, n: nat)
    requires n <= RECORD * |records|
    ensures n / RECORD <= |records| && Records(Log(records)[..n]) == records[..n / RECORD]
    decreases |records|
  {
    hide Record, ParseRecord;
    if n >= RECORD {
      var file := Log(records)[..n];
      RecordRoundTrip(records[0]);
      CutLog(records[1..], n - RECORD);
      assert file[..RECORD] == Record(records[0]);
      assert file[RECORD..] == Log(records[1..])[..n-RECORD];
      assert n / RECORD == 1 + (n - RECORD) / RECORD;
      assert records[..n / RECORD] == [records[0]] + records[1..][..(n - RECORD) / RECORD];
    }
  }

  lemma {:induction false} FirstOfDistinct(q: seq<PendingSubmit>)
    requires DistinctKeys(q)
    ensures FirstByKey(q) == q
    decreases |q|
  {
    hide Key;
    if |q| > 0 {
      var n := |q| - 1;
      FirstOfDistinct(q[..n]);
      assert q == q[..n] + [q[n]];
    }
  }

  /** Loading what is left of a log cut at any byte. */
  lemma LoadCutLog(records: seq<PendingSubmit>, n: nat)
    requires n <= RECORD * |records|
    ensures
      var whole := records[..n / RECORD];
      Loaded(Records(Log(records)[..n])) == Box(FirstByKey(whole), Keys(whole))
  {
    hide Loaded, FirstByKey, Records, Log;
    CutLog(records, n);
    LoadedIs(records[..n / RECORD]);
  }

  /** Appending writes the log of the records appended. */
  lemma {:induction false} LogAppend(records: seq<PendingSubmit>, s: PendingSubmit)
    ensures Log(records + [s]) == Log(records) + Record(s)
    decreases |records|
  {
    hide Record;
    if |records| == 0 {
      assert (records + [s])[1..] == [];
    } else {
      assert (records + [s])[1..] == records[1..] + [s];
      LogAppend(records[1..], s);
    }
  }

  /** Rewriting the file from the queue and loading it restores the queue, and refuses exactly the queued keys. */
  lemma RewriteThenLoad(q: seq<PendingSubmit>)
    requires DistinctKeys(q)
    ensures Loaded(Records(Log(q))) == Box(q, Keys(q))
  {
    hide Loaded, FirstByKey, Records, Log;
    CutLog(q, RECORD * |q|);
    assert Log(q)[..RECORD * |q|] == Log(q) && q[..|q|] == q;
    LoadedIs(q);
    FirstOfDistinct(q);
  }

  /** The queue of every run can be rewritten and loaded, whatever it has loaded and dropped before. */
  lemma RewriteAfterRun(ops: seq<Op>)
    ensures
      var q := Run(START, ops).box.q;
      Loaded(Records(Log(q))) == Box(q, Keys(q))
  {
    hide Run, Loaded, Records, Log;
    AtMostOnce(ops);
    RewriteThenLoad(Run(START, ops).box.q);
  }
}
