/** Creating a checkpoint, step by step with a crash possible after each: stage, digest, chain to the
    ledger's head, retain under a new directory, append one line. */
module Checkpoint {
  import opened Ledger
  import opened Wrappers

  /** Everything a creation changes that outlives it, and the records whose lines were fully written. */
  datatype Store = Store(ledger: Bytes, artifacts: map<string, Bytes>, directories: set<string>, appended: seq<Record>)

  /** The artifact on disk is the one recorded. */
  predicate Recorded(c: Codec, artifacts: map<string, Bytes>, r: Record) {
    r.id in artifacts && c.Bound(artifacts[r.id]) == r.artifactDigest && |artifacts[r.id]| == r.artifactBytes
  }

  /** The ledger is the appended lines and perhaps a torn last one; every record has its artifact. */
  ghost predicate Consistent(c: Codec, s: Store) {
    && WellAppended(c, s.appended)
    && (exists piece :: Plain(piece) && s.ledger == Written(c, s.appended) + piece)
    && (forall r <- s.appended :: Recorded(c, s.artifacts, r))
    && s.artifacts.Keys <= s.directories
  }

  /** Creating `r` for `content` gets as far as: the directory, the artifact in it, `n` bytes of the line. */
  ghost predicate Creates(c: Codec, s: Store, t: Store, r: Record, content: Bytes) {
    && Read(c, s.ledger).Some? && r.previous == c.Bound(s.ledger)
    && r.artifactDigest == c.Bound(content) && r.artifactBytes == |content| && c.Valid(r)
    && r.id !in s.directories
    && var made := s.directories + {r.id};
      || t == s.(directories := made)
      || exists n :: 0 <= n <= |c.Line(r)| && t == Appending(c, s, r, content, n)
  }

  ghost function Appending(c: Codec, s: Store, r: Record, content: Bytes, n: nat): Store
    requires n <= |c.Line(r)|
  {
    Store(s.ledger + c.Line(r)[..n], s.artifacts[r.id := content], s.directories + {r.id},
          if n == |c.Line(r)| then s.appended + [r] else s.appended)
  }

  /** One creation, however far it gets. */
  ghost predicate CreateStep(c: Codec, s: Store, t: Store) {
    t == s || exists r, content :: Creates(c, s, t, r, content)
  }

  /** A consistent ledger is read back as what was appended, or is torn and refused. */
  lemma ReadsBack(c: Codec, s: Store)
    requires c.Lawful() && Consistent(c, s)
    ensures Read(c, s.ledger) == Some(s.appended) || Read(c, s.ledger) == None
    ensures Read(c, s.ledger) == Some(s.appended) <==> s.ledger == Written(c, s.appended)
  {
    hide Read, Written, Codec.Lawful;
    var piece :| Plain(piece) && s.ledger == Written(c, s.appended) + piece;
    WrittenReads(c, s.appended);
    if piece == [] {
      assert s.ledger == Written(c, s.appended);
    } else {
      TornIsRefused(c, s.appended, piece);
      assert |s.ledger| > |Written(c, s.appended)|;
    }
  }

  /** No artifact that was retained is overwritten or removed. */
  ghost predicate Retains(s: Store, t: Store) {
    forall id :: id in s.artifacts ==> id in t.artifacts && t.artifacts[id] == s.artifacts[id]
  }

  lemma StepKeeps(c: Codec, s: Store, t: Store)
    requires c.Lawful() && Consistent(c, s) && CreateStep(c, s, t)
    ensures Consistent(c, t) && Retains(s, t) && s.appended <= t.appended && s.ledger <= t.ledger
    ensures Read(c, s.ledger) == None ==> t.ledger == s.ledger
  {
    hide Read, Written, Codec.Lawful, WellAppended;
    if t != s {
      ReadsBack(c, s);
      var r, content :| Creates(c, s, t, r, content);
      if t == s.(directories := s.directories + {r.id}) {
        assert Consistent(c, t);
      } else {
        var n :| 0 <= n <= |c.Line(r)| && t == Appending(c, s, r, content, n);
        AppendingKeeps(c, s, r, content, n);
      }
    }
  }

  lemma AppendingKeeps(c: Codec, s: Store, r: Record, content: Bytes, n: nat)
    requires c.Lawful() && Consistent(c, s) && s.ledger == Written(c, s.appended) && n <= |c.Line(r)|
    requires r.previous == c.Bound(s.ledger) && r.artifactDigest == c.Bound(content) && r.artifactBytes == |content|
    requires c.Valid(r) && r.id !in s.directories
    ensures Consistent(c, Appending(c, s, r, content, n))
  {
    hide Read, Written, WellAppended, Codec.Lawful;
    var t := Appending(c, s, r, content, n);
    forall q | q in s.appended ensures Recorded(c, t.artifacts, q) {
      assert q.id in s.directories;
    }
    if n == |c.Line(r)| {
      OneMoreWritten(c, s.appended, r);
      assert c.Line(r)[..n] == c.Line(r);
      assert t.ledger == Written(c, t.appended) + [] && Plain([]);
    } else {
      TornLineIsPlain(c, r, n);
      assert t.ledger == Written(c, t.appended) + c.Line(r)[..n];
    }
  }

  lemma OneMoreWritten(c: Codec, rs: seq<Record>, r: Record)
    requires WellAppended(c, rs) && c.Valid(r) && r.previous == c.Bound(Written(c, rs))
    ensures WellAppended(c, rs + [r]) && Written(c, rs + [r]) == Written(c, rs) + c.Line(r)
  {
    var all := rs + [r];
    assert all[..|rs|] == rs;
    forall k | 0 <= k < |all| ensures c.Valid(all[k]) && all[k].previous == c.Bound(Written(c, all[..k])) {
      if k < |rs| {
        assert all[..k] == rs[..k] && all[k] == rs[k];
      }
    }
  }

  lemma TornLineIsPlain(c: Codec, r: Record, n: nat)
    requires c.Lawful() && c.Valid(r) && n < |c.Line(r)|
    ensures Plain(c.Line(r)[..n])
  {
    assert c.Line(r)[..n] == c.encode(r)[..n];
    assert forall x :: x in c.encode(r)[..n] ==> x in c.encode(r);
  }

  ghost predicate StepAt(c: Codec, run: seq<Store>, i: nat)
    requires i + 1 < |run|
  {
    CreateStep(c, run[i], run[i + 1])
  }

  ghost predicate IsRun(c: Codec, run: seq<Store>) {
    run != [] && forall i {:trigger StepAt(c, run, i)} :: 0 <= i < |run| - 1 ==> StepAt(c, run, i)
  }

  /** At every point of every run of creations, crashes and torn writes included: the ledger is read
      back as exactly the appended records in order, or refused; every record has its artifact with the
      recorded digest and size; and no retained artifact is ever changed. */
  lemma {:induction false} EveryRunKeeps(c: Codec, run: seq<Store>)
    requires c.Lawful() && IsRun(c, run) && Consistent(c, run[0])
    ensures forall i :: 0 <= i < |run| ==> Consistent(c, run[i])
    ensures forall i, j :: 0 <= i <= j < |run| ==> Retains(run[i], run[j])
    ensures forall i :: 0 <= i < |run| ==> Read(c, run[i].ledger) in {None, Some(run[i].appended)}
    decreases |run|
  {
    hide Consistent, CreateStep, Codec.Lawful, Read;
    ReadsBack(c, run[0]);
    if |run| > 1 {
      assert StepAt(c, run, 0);
      StepKeeps(c, run[0], run[1]);
      var rest := run[1..];
      forall i | 0 <= i < |rest| - 1 ensures StepAt(c, rest, i) {
        assert StepAt(c, run, i + 1);
      }
      EveryRunKeeps(c, rest);
      forall i | 0 <= i < |run|
        ensures Consistent(c, run[i]) && Read(c, run[i].ledger) in {None, Some(run[i].appended)} {
        if i > 0 {
          assert run[i] == rest[i - 1];
        }
      }
      forall i, j | 0 <= i <= j < |run| ensures Retains(run[i], run[j]) {
        if i > 0 {
          assert run[i] == rest[i - 1] && run[j] == rest[j - 1];
        } else if j > 0 {
          assert run[1] == rest[0] && run[j] == rest[j - 1];
        }
      }
    }
  }

  /** A torn ledger is never extended. */
  lemma {:induction false} TornStaysAsItIs(c: Codec, run: seq<Store>)
    requires c.Lawful() && IsRun(c, run) && Consistent(c, run[0]) && Read(c, run[0].ledger) == None
    ensures forall i :: 0 <= i < |run| ==> run[i].ledger == run[0].ledger
    decreases |run|
  {
    hide Consistent, CreateStep, Codec.Lawful, Read;
    if |run| > 1 {
      assert StepAt(c, run, 0);
      StepKeeps(c, run[0], run[1]);
      var rest := run[1..];
      forall i | 0 <= i < |rest| - 1 ensures StepAt(c, rest, i) {
        assert StepAt(c, run, i + 1);
      }
      TornStaysAsItIs(c, rest);
      forall i | 0 < i < |run| ensures run[i].ledger == run[0].ledger {
        assert run[i] == rest[i - 1];
      }
    }
  }

  // ---- the operations ----

  /** Where a creation stops, if it does. */
  datatype Crash =
    | Never | WhileStaging(written: nat) | BeforeRetaining | WithDirectory | WithArtifact | WhileAppending(written: nat)
  datatype Result = Created(record: Record) | LedgerRefused | InvalidRecord | DirectoryExists | Crashed
  datatype Selection =
    | Selected(record: Record) | UnknownCheckpoint | LedgerUnreadable | ArtifactMissing | ArtifactMismatch

  /** The store where a retained and recorded checkpoint was stopped, or where it was completed. */
  ghost function Reached(c: Codec, s: Store, r: Record, content: Bytes, crash: Crash): Store {
    match crash
    case WithDirectory => s.(directories := s.directories + {r.id})
    case WithArtifact => Appending(c, s, r, content, 0)
    case WhileAppending(written) =>
      Appending(c, s, r, content, if written < |c.Line(r)| then written else |c.Line(r)|)
    case _ => Appending(c, s, r, content, |c.Line(r)|)
  }

  predicate Completes(crash: Crash) { !crash.WithDirectory? && !crash.WithArtifact? && !crash.WhileAppending? }

  const CHUNK: nat := 1048576

  class CheckpointStore {
    const c: Codec
    var ledger: Option<Bytes>
    var staged: Option<Bytes>
    var directories: set<string>
    var artifacts: map<string, Bytes>
    ghost var appended: seq<Record>

    constructor (c: Codec)
      ensures this.c == c && Now() == Store([], map[], {}, [])
    {
      this.c := c;
      ledger, staged, directories, artifacts, appended := None, None, {}, map[], [];
    }

    function LedgerBytes(): Bytes
      reads this
    {
      if ledger == None then [] else ledger.value
    }

    ghost function Now(): Store
      reads this
    {
      Store(LedgerBytes(), artifacts, directories, appended)
    }

    /** The digest and the size of a file, read a chunk at a time. */
    method DigestFile(content: Bytes) returns (digest: Digest, size: nat)
      ensures digest == c.hash(content) && size == |content|
    {
      var digested: Bytes := [];
      size := 0;
      while size < |content|
        invariant size <= |content| && digested == content[..size]
      {
        var end := if size + CHUNK < |content| then size + CHUNK else |content|;
        digested := digested + content[size..end];
        assert content[..size] + content[size..end] == content[..end];
        size := end;
      }
      assert content[..|content|] == content;
      digest := c.hash(digested);
    }

    /** The record of a capture, chained to the ledger as it stands. */
    ghost function Drafted(head: Bytes, captured: Bytes, timestamp: string, rest: string): Record {
      var digest := c.hash(captured);
      Record(timestamp + "-" + digest, c.Bound(captured), |captured|, c.Bound(head), rest)
    }

    /** Under a proper stamp only an empty capture makes a draft invalid. */
    lemma DraftIsValid(head: Bytes, captured: Bytes, timestamp: string, rest: string)
      ensures c.Lawful() && IsStamp(timestamp) && c.validRest(rest) ==>
        (c.Valid(Drafted(head, captured, timestamp, rest)) <==> captured != [])
    {
      if c.Lawful() && IsStamp(timestamp) {
        var r := Drafted(head, captured, timestamp, rest);
        var digest := c.hash(captured);
        assert IsHexDigest(digest) && IsHexDigest(c.hash(head));
        assert r.id[..16] == timestamp && r.id[17..] == digest;
        BoundIsDigest(c, captured);
        BoundIsDigest(c, head);
      }
    }

    /** The new record is staged, validated, retained and appended. */
    method CreateCheckpoint(captured: Bytes, timestamp: string, rest: string, crash: Crash) returns (r: Result)
      modifies this
      ensures r.Created? ==>
        && r.record.id == timestamp + "-" + c.hash(captured) && r.record.rest == rest
        && r.record.artifactDigest == "sha256:" + c.hash(captured) && r.record.artifactBytes == |captured|
        && r.record.previous == "sha256:" + c.hash(old(LedgerBytes()))
      ensures r.Created? ==>
        && LedgerBytes() == old(LedgerBytes()) + c.encode(r.record) + [10]
        && artifacts == old(artifacts)[r.record.id := captured] && staged == None
        && directories == old(directories) + {r.record.id} && r.record.id !in old(directories)
      ensures r == DirectoryExists ==> timestamp + "-" + c.hash(captured) in old(directories)
      ensures !crash.WhileStaging? ==> (r == LedgerRefused <==> !exists rs :: RecordsFrom(c, old(LedgerBytes()), 0, rs))
      ensures CreateStep(c, old(Now()), Now())
      ensures crash.WhileStaging? ==> r == Crashed && Now() == old(Now())
      ensures !crash.WhileStaging? ==> (r == LedgerRefused <==> Read(c, old(LedgerBytes())) == None)
      ensures !crash.WhileStaging? && Read(c, old(LedgerBytes())).Some? ==>
        (r == InvalidRecord <==> !c.Valid(Drafted(old(LedgerBytes()), captured, timestamp, rest)))
      ensures r == InvalidRecord ==> Read(c, old(LedgerBytes())).Some?
      ensures c.Lawful() && IsStamp(timestamp) && c.validRest(rest) ==>
        (c.Valid(Drafted(old(LedgerBytes()), captured, timestamp, rest)) <==> captured != [])
      ensures r in {LedgerRefused, InvalidRecord, DirectoryExists} ==> Now() == old(Now())
      ensures !crash.WhileStaging? && r != LedgerRefused && r != InvalidRecord ==>
        var record := Drafted(old(LedgerBytes()), captured, timestamp, rest);
        && (crash == BeforeRetaining ==> r == Crashed && Now() == old(Now()))
        && (crash != BeforeRetaining ==> (r == DirectoryExists <==> record.id in old(directories)))
        && (crash != BeforeRetaining && record.id !in old(directories) ==>
              && Now() == Reached(c, old(Now()), record, captured, crash)
              && r == if Completes(crash) then Created(record) else Crashed)
      ensures r.Created? ==> appended == old(appended) + [r.record]
      ensures r.Created? ==> LedgerBytes() == old(LedgerBytes()) + c.Line(r.record)
      ensures r.Created? ==> Recorded(c, artifacts, r.record) && artifacts[r.record.id] == captured && staged == None
    {
      hide Read, CreateStep, Reached, Codec.Lawful, Codec.Valid, RecordsFrom;
      SameStep(c, Now());
      ReadsRecords(c, LedgerBytes());
      DraftIsValid(LedgerBytes(), captured, timestamp, rest);
      staged := None;
      if crash.WhileStaging? {
        staged := if crash.written <= |captured| then Some(captured[..crash.written]) else None;
        return Crashed;
      }
      staged := Some(captured);
      var digest, size := DigestFile(captured);
      var records := ReadRecords(c, ledger);
      EmptyReads(c);
      if records == None {
        return LedgerRefused;
      }
      var head := c.Bound(LedgerBytes());
      var record := Record(timestamp + "-" + digest, DIGEST_PREFIX + digest, size, head, rest);
      if !c.Valid(record) {
        return InvalidRecord;
      }
      if crash == BeforeRetaining {
        return Crashed;
      }
      r := RetainAndRecord(record, captured, crash);
    }

    /** A new directory for the artifact, the artifact moved into it, and one line appended. */
    method RetainAndRecord(record: Record, captured: Bytes, crash: Crash) returns (r: Result)
      requires Read(c, LedgerBytes()).Some? && record.previous == c.Bound(LedgerBytes()) && c.Valid(record)
      requires record.artifactDigest == c.Bound(captured) && record.artifactBytes == |captured|
      modifies this
      ensures CreateStep(c, old(Now()), Now())
      ensures r == DirectoryExists <==> record.id in old(directories)
      ensures r == DirectoryExists ==> Now() == old(Now())
      ensures record.id !in old(directories) ==>
        && Now() == Reached(c, old(Now()), record, captured, crash)
        && r == if Completes(crash) then Created(record) else Crashed
      ensures r.Created? ==> appended == old(appended) + [record]
      ensures r.Created? ==> LedgerBytes() == old(LedgerBytes()) + c.Line(record)
      ensures r.Created? ==> record.id in artifacts && artifacts[record.id] == captured && staged == None
      ensures r.Created? ==>
        && r.record == record && LedgerBytes() == old(LedgerBytes()) + c.encode(record) + [10]
        && artifacts == old(artifacts)[record.id := captured]
        && directories == old(directories) + {record.id}
      ensures r == Crashed ==>
        && directories == old(directories) + {record.id}
        && artifacts == (if crash == WithDirectory then old(artifacts) else old(artifacts)[record.id := captured])
        && (!crash.WhileAppending? ==> LedgerBytes() == old(LedgerBytes()))
        && (crash.WhileAppending? ==>
              var line := c.encode(record) + [10];
              LedgerBytes() == old(LedgerBytes()) + if crash.written < |line| then line[..crash.written] else line)
      ensures record.id !in old(directories) ==>
        (r.Created? <==> crash != WithDirectory && crash != WithArtifact && !crash.WhileAppending?)
    {
      hide Read, CreateStep, Codec.Valid;
      ghost var before := Now();
      SameStep(c, before);
      var id := record.id;
      if id in directories {
        return DirectoryExists;
      }
      directories := directories + {id};
      if crash == WithDirectory {
        CreatesDirectory(c, before, record, captured);
        return Crashed;
      }
      artifacts := artifacts[id := captured];
      staged := None;
      if crash == WithArtifact {
        assert Now() == Appending(c, before, record, captured, 0);
        CreatesAppending(c, before, record, captured, 0);
        return Crashed;
      }
      var line := c.Line(record);
      var written := if crash.WhileAppending? && crash.written < |line| then crash.written else |line|;
      ledger := Some(LedgerBytes() + line[..written]);
      if written == |line| {
        appended := appended + [record];
      }
      assert Now() == Appending(c, before, record, captured, written);
      CreatesAppending(c, before, record, captured, written);
      if crash.WhileAppending? {
        assert line[..|line|] == line;
        return Crashed;
      }
      assert line[..written] == line;
      assert old(LedgerBytes()) + line == old(LedgerBytes()) + c.encode(record) + [10];
      return Created(record);
    }

    /** The first record with the id, if its artifact is the one recorded. */
    function FirstWith(records: seq<Record>, id: string): Selection
      reads this
    {
      if records == [] then UnknownCheckpoint
      else if records[0].id != id then FirstWith(records[1..], id)
      else if id !in artifacts then ArtifactMissing
      else if !Recorded(c, artifacts, records[0]) then ArtifactMismatch
      else Selected(records[0])
    }

    lemma {:induction false} FirstWithHolds(records: seq<Record>, id: string)
      ensures FirstWith(records, id) == UnknownCheckpoint <==> forall r <- records :: r.id != id
      ensures var s := FirstWith(records, id);
        s.Selected? ==> s.record in records && s.record.id == id && Recorded(c, artifacts, s.record)
      ensures (forall r <- records :: Recorded(c, artifacts, r)) ==>
        FirstWith(records, id) !in {ArtifactMissing, ArtifactMismatch}
      ensures FirstWith(records, id) != LedgerUnreadable
      decreases |records|
    {
      if records != [] {
        FirstWithHolds(records[1..], id);
        assert forall r :: r in records <==> r == records[0] || r in records[1..];
      }
    }

    /** What the selection of one record comes to. */
    ghost predicate ComesTo(s: Selection, r: Record)
      reads this
    {
      if r.id !in artifacts then s == ArtifactMissing
      else if r.artifactDigest == "sha256:" + c.hash(artifacts[r.id]) && r.artifactBytes == |artifacts[r.id]|
      then s == Selected(r)
      else s == ArtifactMismatch
    }

    lemma {:induction false} FirstWithIsFirst(records: seq<Record>, i: nat, id: string)
      requires FirstIs(records, i, id)
      ensures ComesTo(FirstWith(records, id), records[i])
      decreases i
    {
      if i > 0 {
        FirstWithIsFirst(records[1..], i - 1, id);
      }
    }

    ghost function Wanted(id: string): Selection
      reads this
    {
      match Read(c, LedgerBytes())
      case None => LedgerUnreadable
      case Some(rs) => FirstWith(rs, id)
    }

    lemma SelectionSpelled(id: string)
      ensures Wanted(id) == LedgerUnreadable <==> !exists rs :: RecordsFrom(c, LedgerBytes(), 0, rs)
      ensures forall rs: seq<Record> :: RecordsFrom(c, LedgerBytes(), 0, rs) ==>
        (Wanted(id) == UnknownCheckpoint <==> forall r <- rs :: r.id != id)
      ensures forall rs: seq<Record>, i: nat :: RecordsFrom(c, LedgerBytes(), 0, rs) && FirstIs(rs, i, id) ==>
        ComesTo(Wanted(id), rs[i])
    {
      hide Read, RecordsFrom, ComesTo;
      ReadsRecords(c, LedgerBytes());
      var read := Read(c, LedgerBytes());
      if read.Some? {
        FirstWithHolds(read.value, id);
        forall i: nat | FirstIs(read.value, i, id) ensures ComesTo(FirstWith(read.value, id), read.value[i]) {
          FirstWithIsFirst(read.value, i, id);
        }
      }
    }

    lemma NeverUnreadable(id: string)
      ensures Read(c, LedgerBytes()).Some? ==> FirstWith(Read(c, LedgerBytes()).value, id) != LedgerUnreadable
    {
      hide Read;
      if Read(c, LedgerBytes()).Some? {
        FirstWithHolds(Read(c, LedgerBytes()).value, id);
      }
    }

    lemma SelectionConsistent(id: string)
      requires c.Lawful() && Consistent(c, Now())
      ensures Wanted(id) !in {ArtifactMissing, ArtifactMismatch}
      ensures Wanted(id) == LedgerUnreadable <==> LedgerBytes() != Written(c, appended)
      ensures Wanted(id).Selected? <==> LedgerBytes() == Written(c, appended) && exists r :: r in appended && r.id == id
    {
      hide Read, Codec.Lawful, Written, WellAppended, Recorded;
      ReadsBack(c, Now());
      if Read(c, LedgerBytes()).Some? {
        FirstWithHolds(appended, id);
      }
    }

    /** What a restore checks before it touches the database: the first record with the id, and its artifact. */
    method SelectCheckpoint(id: string) returns (s: Selection)
      ensures s == LedgerUnreadable <==> !exists rs :: RecordsFrom(c, LedgerBytes(), 0, rs)
      ensures forall rs: seq<Record> :: RecordsFrom(c, LedgerBytes(), 0, rs) ==>
        (s == UnknownCheckpoint <==> forall r <- rs :: r.id != id)
      ensures forall rs: seq<Record>, i: nat :: RecordsFrom(c, LedgerBytes(), 0, rs) && FirstIs(rs, i, id) ==>
        ComesTo(s, rs[i])
      ensures s == LedgerUnreadable <==> Read(c, LedgerBytes()) == None
      ensures Read(c, LedgerBytes()).Some? ==> s == FirstWith(Read(c, LedgerBytes()).value, id)
      ensures c.Lawful() && Consistent(c, Now()) ==>
        && s !in {ArtifactMissing, ArtifactMismatch}
        && (s == LedgerUnreadable <==> LedgerBytes() != Written(c, appended))
        && (s.Selected? <==> LedgerBytes() == Written(c, appended) && exists r :: r in appended && r.id == id)
    {
      hide Read, Codec.Lawful, Written, WellAppended, RecordsFrom, FirstIs, ComesTo, Consistent, FirstWith;
      EmptyReads(c);
      SelectionSpelled(id);
      NeverUnreadable(id);
      if c.Lawful() && Consistent(c, Now()) {
        SelectionConsistent(id);
      }
      var records := ReadRecords(c, ledger);
      s := LedgerUnreadable;
      if records.Some? {
        s := SelectAmong(records.value, id);
      }
      assert s == Wanted(id);
    }

    method SelectAmong(records: seq<Record>, id: string) returns (s: Selection)
      ensures s == FirstWith(records, id)
    {
      assert records[0..] == records;
      for i := 0 to |records|
        invariant FirstWith(records, id) == FirstWith(records[i..], id)
      {
        var record := records[i];
        assert records[i..][0] == record && records[i..][1..] == records[i + 1..];
        if record.id == id {
          if id !in artifacts {
            return ArtifactMissing;
          }
          var digest, size := DigestFile(artifacts[id]);
          if DIGEST_PREFIX + digest != record.artifactDigest || size != record.artifactBytes {
            return ArtifactMismatch;
          }
          return Selected(record);
        }
      }
      return UnknownCheckpoint;
    }
  }

  ghost predicate FirstIs(rs: seq<Record>, i: nat, id: string) {
    i < |rs| && rs[i].id == id && forall j :: 0 <= j < i ==> rs[j].id != id
  }

  lemma BoundIsDigest(c: Codec, b: Bytes)
    requires c.Lawful()
    ensures IsDigest(c.Bound(b))
  {
    assert IsHexDigest(c.hash(b));
    assert c.Bound(b)[|DIGEST_PREFIX|..] == c.hash(b);
  }

  lemma SameStep(c: Codec, s: Store)
    ensures CreateStep(c, s, s)
  {
  }

  lemma CreatesDirectory(c: Codec, s: Store, r: Record, content: Bytes)
    requires Read(c, s.ledger).Some? && r.previous == c.Bound(s.ledger) && r.id !in s.directories
    requires r.artifactDigest == c.Bound(content) && r.artifactBytes == |content| && c.Valid(r)
    ensures CreateStep(c, s, s.(directories := s.directories + {r.id}))
  {
    assert Creates(c, s, s.(directories := s.directories + {r.id}), r, content);
  }

  lemma CreatesAppending(c: Codec, s: Store, r: Record, content: Bytes, n: nat)
    requires Read(c, s.ledger).Some? && r.previous == c.Bound(s.ledger) && r.id !in s.directories
    requires r.artifactDigest == c.Bound(content) && r.artifactBytes == |content| && c.Valid(r) && n <= |c.Line(r)|
    ensures CreateStep(c, s, Appending(c, s, r, content, n))
  {
    assert Creates(c, s, Appending(c, s, r, content, n), r, content);
  }

  lemma EmptyReads(c: Codec)
    ensures Read(c, []) == Some([])
  {
  }
}
