/** The append-only checkpoint ledger: lines of records, each bound to the digest of every byte before it. */
module Ledger {
  import opened Wrappers

  type Byte = b: int | 0 <= b < 256
  type Bytes = seq<Byte>
  type Digest = string

  const LF: Byte := 10
  const CR: Byte := 13

  /** The fields the ledger itself depends on; `rest` stands for the others. */
  datatype Record = Record(id: string, artifactDigest: Digest, artifactBytes: int, previous: Digest, rest: string)

  // ---- what the validators of a record ask ----

  predicate Decimal(c: char) { '0' <= c <= '9' }

  predicate IsHexDigest(s: string) { |s| == 64 && forall c <- s :: Decimal(c) || 'a' <= c <= 'f' }

  const DIGEST_PREFIX := "sha256:"

  predicate IsDigest(s: string) {
    |s| == |DIGEST_PREFIX| + 64 && s[..|DIGEST_PREFIX|] == DIGEST_PREFIX && IsHexDigest(s[|DIGEST_PREFIX|..])
  }

  /** Eight digits, a T, six digits, a Z. */
  predicate IsStamp(s: string) {
    && |s| == 16 && (forall c <- s[..8] :: Decimal(c)) && (forall c <- s[9..15] :: Decimal(c))
    && s[8] == 'T' && s[15] == 'Z'
  }

  predicate IsCheckpointId(s: string) {
    |s| == 81 && IsStamp(s[..16]) && s[16] == '-' && IsHexDigest(s[17..])
  }

  /** The digest in hexadecimal, what the validators ask of the other fields, and the serialization of one
      record with the validation that reads a line back. */
  datatype Codec = Codec(hash: Bytes -> string, validRest: string -> bool, encode: Record -> Bytes,
    parse: Bytes -> Option<Record>)
  {
    function Line(r: Record): Bytes { encode(r) + [LF] }

    /** The digest as a record holds it. */
    function Bound(b: Bytes): Digest { DIGEST_PREFIX + hash(b) }

    predicate Valid(r: Record) {
      && IsCheckpointId(r.id) && IsDigest(r.artifactDigest) && IsDigest(r.previous)
      && r.artifactBytes >= 1 && validRest(r.rest)
    }

    /** A valid record is encoded on one line and read back as it was; no other is read. */
    ghost predicate Lawful() {
      && (forall b: Bytes :: IsHexDigest(hash(b)))
      && (forall r: Record :: Valid(r) ==> Plain(encode(r)) && parse(Line(r)) == Some(r))
      && forall line: Bytes :: parse(line).Some? ==> Valid(parse(line).value)
    }

    ghost predicate Injective() {
      forall x: Bytes, y: Bytes :: hash(x) == hash(y) ==> x == y
    }
  }

  predicate Plain(b: Bytes) { LF !in b && CR !in b }

  // ---- lines as the byte string is split, ends kept ----

  /** The length of the first line with its end: LF, CR, or CR LF. */
  function FirstLine(b: Bytes): (n: nat)
    ensures n <= |b| && (b != [] ==> n > 0)
  {
    if b == [] then 0
    else if b[0] == LF then 1
    else if b[0] == CR then (if |b| > 1 && b[1] == LF then 2 else 1)
    else 1 + FirstLine(b[1..])
  }

  function Lines(b: Bytes): seq<Bytes> {
    if b == [] then [] else [b[..FirstLine(b)]] + Lines(b[FirstLine(b)..])
  }

  function Joined(lines: seq<Bytes>): Bytes {
    if lines == [] then [] else lines[0] + Joined(lines[1..])
  }

  lemma {:induction false} LinesJoin(b: Bytes)
    ensures Joined(Lines(b)) == b
    decreases |b|
  {
    if b != [] {
      LinesJoin(b[FirstLine(b)..]);
    }
  }

  lemma {:induction false} JoinedSnoc(lines: seq<Bytes>, line: Bytes)
    ensures Joined(lines + [line]) == Joined(lines) + line
    decreases |lines|
  {
    if lines == [] {
      assert [line][1..] == [] && line + [] == line;
    } else {
      assert (lines + [line])[1..] == lines[1..] + [line];
      JoinedSnoc(lines[1..], line);
      assert lines[0] + (Joined(lines[1..]) + line) == (lines[0] + Joined(lines[1..])) + line;
    }
  }

  lemma {:induction false} PlainLineFirst(enc: Bytes, rest: Bytes)
    requires Plain(enc)
    ensures FirstLine(enc + ([LF] + rest)) == |enc| + 1
    decreases |enc|
  {
    var b := enc + ([LF] + rest);
    if enc != [] {
      assert enc[0] in enc && b[0] == enc[0];
      assert b[1..] == enc[1..] + ([LF] + rest);
      assert forall x :: x in enc[1..] ==> x in enc;
      PlainLineFirst(enc[1..], rest);
    }
  }

  lemma {:induction false} PlainIsOneLine(b: Bytes)
    requires Plain(b)
    ensures FirstLine(b) == |b|
    decreases |b|
  {
    if b != [] {
      assert b[0] in b;
      assert forall x :: x in b[1..] ==> x in b;
      PlainIsOneLine(b[1..]);
    }
  }

  // ---- reading ----

  /** The records of the lines, chained from the bytes already seen. */
  function ReadFrom(c: Codec, lines: seq<Bytes>, seen: Bytes): Option<seq<Record>> {
    if lines == [] then Some([])
    else if lines[0] == [] || lines[0][|lines[0]| - 1] != LF then None
    else match c.parse(lines[0])
      case None => None
      case Some(r) =>
        if r.previous != c.Bound(seen) then None
        else match ReadFrom(c, lines[1..], seen + lines[0])
          case None => None
          case Some(rest) => Some([r] + rest)
  }

  function Read(c: Codec, ledger: Bytes): Option<seq<Record>> { ReadFrom(c, Lines(ledger), []) }

  /** Record `r` is line `line`, and binds everything before it. */
  ghost predicate Linked(c: Codec, line: Bytes, r: Record, before: Bytes) {
    line != [] && line[|line| - 1] == LF && c.parse(line) == Some(r) && r.previous == c.Bound(before)
  }

  ghost predicate Chained(c: Codec, lines: seq<Bytes>, rs: seq<Record>, seen: Bytes) {
    |rs| == |lines| && forall k :: 0 <= k < |lines| ==> Linked(c, lines[k], rs[k], seen + Joined(lines[..k]))
  }

  lemma JoinedHead(lines: seq<Bytes>, seen: Bytes, k: nat)
    requires 0 < k <= |lines|
    ensures seen + Joined(lines[..k]) == (seen + lines[0]) + Joined(lines[1..][..k - 1])
  {
    assert lines[..k][1..] == lines[1..][..k - 1];
  }

  /** Accepting means exactly that every line is one record chained to the bytes before it. */
  lemma {:induction false} ReadIsChained(c: Codec, lines: seq<Bytes>, rs: seq<Record>, seen: Bytes)
    ensures ReadFrom(c, lines, seen) == Some(rs) <==> Chained(c, lines, rs, seen)
    decreases |lines|
  {
    if lines != [] {
      assert lines[..0] == [] && seen + [] == seen;
      if rs != [] {
        ReadIsChained(c, lines[1..], rs[1..], seen + lines[0]);
        assert rs == [rs[0]] + rs[1..];
        forall k | 1 <= k < |lines|
          ensures seen + Joined(lines[..k]) == (seen + lines[0]) + Joined(lines[1..][..k - 1]) {
          JoinedHead(lines, seen, k);
        }
        if Chained(c, lines, rs, seen) {
          assert Linked(c, lines[0], rs[0], seen + Joined(lines[..0]));
          forall k | 0 <= k < |lines| - 1
            ensures Linked(c, lines[1..][k], rs[1..][k], seen + lines[0] + Joined(lines[1..][..k])) {
            assert Linked(c, lines[k + 1], rs[k + 1], seen + Joined(lines[..k + 1]));
          }
        }
        if ReadFrom(c, lines, seen) == Some(rs) {
          forall k | 0 <= k < |lines| ensures Linked(c, lines[k], rs[k], seen + Joined(lines[..k])) {
            if k > 0 {
              assert Linked(c, lines[1..][k - 1], rs[1..][k - 1], seen + lines[0] + Joined(lines[1..][..k - 1]));
            }
          }
        }
      }
    }
  }

  // ---- reading, by places in the bytes ----

  /** The bytes from `i` to `j` are a line that ends with a line feed, with no other end of a line inside. */
  ghost predicate EndedLine(b: Bytes, i: nat, j: nat) {
    && i < j <= |b| && b[j - 1] == 10
    && forall k :: i <= k < j - 1 ==> b[k] != 10 && (b[k] == 13 ==> k == j - 2)
  }

  /** The next line is `r`, and binds all bytes before it. */
  ghost predicate RecordAt(c: Codec, b: Bytes, i: nat, j: nat, r: Record) {
    EndedLine(b, i, j) && c.parse(b[i..j]) == Some(r) && r.previous == "sha256:" + c.hash(b[..i])
  }

  /** From `i` on the bytes are lines that hold the records, one each, and nothing else. */
  ghost predicate RecordsFrom(c: Codec, b: Bytes, i: nat, rs: seq<Record>)
    decreases |rs|
  {
    if rs == [] then i == |b| else exists j :: RecordAt(c, b, i, j, rs[0]) && RecordsFrom(c, b, j, rs[1..])
  }

  lemma {:induction false} FirstLineEnds(b: Bytes, n: nat)
    requires b != []
    ensures EndedLine(b, 0, n) <==> n == FirstLine(b) && b[n - 1] == 10
    decreases |b|
  {
    if b[0] == 10 {
      assert FirstLine(b) == 1;
    } else if b[0] == 13 {
      assert FirstLine(b) == if |b| > 1 && b[1] == 10 then 2 else 1;
      if EndedLine(b, 0, n) {
        assert n != 1;
      }
    } else if |b| == 1 {
      assert b[1..] == [] && FirstLine(b) == 1;
    } else if n > 0 {
      FirstLineEnds(b[1..], n - 1);
      LineOneOn(b, n);
      assert FirstLine(b) == 1 + FirstLine(b[1..]);
    }
  }

  lemma LineOneOn(b: Bytes, n: nat)
    requires |b| > 1 && n > 0 && b[0] != 10 && b[0] != 13
    ensures EndedLine(b, 0, n) <==> EndedLine(b[1..], 0, n - 1)
  {
    if EndedLine(b, 0, n) {
      assert forall k :: 0 <= k < n - 2 ==> b[1..][k] == b[k + 1];
    }
    if EndedLine(b[1..], 0, n - 1) {
      forall k | 0 <= k < n - 1 ensures b[k] != 10 && (b[k] == 13 ==> k == n - 2) {
        if k > 0 {
          assert b[k] == b[1..][k - 1];
        }
      }
    }
  }

  lemma LineFrom(b: Bytes, i: nat, j: nat)
    requires i < |b|
    ensures EndedLine(b, i, j) <==> j >= i && EndedLine(b[i..], 0, j - i)
  {
    if EndedLine(b, i, j) {
      assert forall k :: 0 <= k < j - i ==> b[i..][k] == b[i + k];
    }
    if j >= i && EndedLine(b[i..], 0, j - i) {
      forall k | i <= k < j - 1 ensures b[k] != 10 && (b[k] == 13 ==> k == j - 2) {
        assert b[k] == b[i..][k - i];
      }
    }
  }

  lemma LineIsFirst(b: Bytes, i: nat, j: nat)
    requires i < |b|
    ensures EndedLine(b, i, j) <==> j == i + FirstLine(b[i..]) && b[j - 1] == 10
  {
    hide EndedLine, FirstLine;
    LineFrom(b, i, j);
    if j >= i {
      FirstLineEnds(b[i..], j - i);
    }
  }

  /** Reading from a place finds exactly the records whose lines stand there. */
  lemma {:induction false} ReadSpelled(c: Codec, b: Bytes, i: nat, rs: seq<Record>)
    requires i <= |b|
    ensures ReadFrom(c, Lines(b[i..]), b[..i]) == Some(rs) <==> RecordsFrom(c, b, i, rs)
    decreases |b| - i
  {
    if i < |b| {
      hide EndedLine, FirstLine;
      var j := i + FirstLine(b[i..]);
      LineIsFirst(b, i, j);
      assert Lines(b[i..]) == [b[i..][..j - i]] + Lines(b[i..][j - i..]);
      hide Lines;
      assert b[i..][..j - i] == b[i..j] && b[i..][j - i..] == b[j..] && b[..i] + b[i..j] == b[..j];
      forall k | EndedLine(b, i, k) ensures k == j {
        LineIsFirst(b, i, k);
      }
      if rs != [] {
        ReadSpelled(c, b, j, rs[1..]);
        ReadOneMore(c, b, i, j, rs);
      }
    } else {
      assert b[i..] == [];
    }
  }

  lemma ReadOneMore(c: Codec, b: Bytes, i: nat, j: nat, rs: seq<Record>)
    requires i < j <= |b| && rs != [] && Lines(b[i..]) == [b[i..j]] + Lines(b[j..]) && b[..i] + b[i..j] == b[..j]
    requires EndedLine(b, i, j) <==> b[j - 1] == 10
    requires forall k :: EndedLine(b, i, k) ==> k == j
    requires ReadFrom(c, Lines(b[j..]), b[..j]) == Some(rs[1..]) <==> RecordsFrom(c, b, j, rs[1..])
    ensures ReadFrom(c, Lines(b[i..]), b[..i]) == Some(rs) <==> RecordsFrom(c, b, i, rs)
  {
    hide EndedLine, Lines;
    var lines := Lines(b[i..]);
    assert lines[0] == b[i..j] && lines[1..] == Lines(b[j..]) && b[i..j][j - i - 1] == b[j - 1];
    assert rs == [rs[0]] + rs[1..];
    assert RecordsFrom(c, b, i, rs) <==> RecordAt(c, b, i, j, rs[0]) && RecordsFrom(c, b, j, rs[1..]);
  }

  lemma ReadsRecords(c: Codec, b: Bytes)
    ensures forall rs :: Read(c, b) == Some(rs) <==> RecordsFrom(c, b, 0, rs)
    ensures Read(c, b) == None <==> !exists rs :: RecordsFrom(c, b, 0, rs)
  {
    hide Lines, ReadFrom, RecordsFrom;
    forall rs ensures Read(c, b) == Some(rs) <==> RecordsFrom(c, b, 0, rs) {
      ReadSpelled(c, b, 0, rs);
      assert b[0..] == b && b[..0] == [];
    }
    if Read(c, b).Some? {
      assert RecordsFrom(c, b, 0, Read(c, b).value);
    }
  }

  /** What the validators accept, character by character. */
  lemma ValidSpelled(c: Codec, r: Record)
    ensures c.Valid(r) <==>
      && |r.id| == 8 + 1 + 6 + 1 + 1 + 64 && r.id[8] == 'T' && r.id[15] == 'Z' && r.id[16] == '-'
      && (forall k :: 0 <= k < 15 && k != 8 ==> '0' <= r.id[k] <= '9')
      && (forall k :: 17 <= k < 81 ==> '0' <= r.id[k] <= '9' || 'a' <= r.id[k] <= 'f')
      && Sha256(r.artifactDigest) && Sha256(r.previous) && r.artifactBytes >= 1 && c.validRest(r.rest)
  {
    DigestSpelled(r.artifactDigest);
    DigestSpelled(r.previous);
    IdSpelled(r.id);
  }

  ghost predicate Sha256(s: string) {
    && |s| == 7 + 64 && s[..7] == "sha256:"
    && forall k :: 7 <= k < 71 ==> '0' <= s[k] <= '9' || 'a' <= s[k] <= 'f'
  }

  lemma DigestSpelled(s: string)
    ensures IsDigest(s) <==> Sha256(s)
  {
    if |s| == 71 {
      HexSpelled(s, 7);
    }
  }

  lemma HexSpelled(s: string, n: nat)
    requires n <= |s|
    ensures IsHexDigest(s[n..]) <==>
      |s| == n + 64 && forall k :: n <= k < n + 64 ==> '0' <= s[k] <= '9' || 'a' <= s[k] <= 'f'
  {
    if IsHexDigest(s[n..]) {
      forall k | n <= k < n + 64 ensures '0' <= s[k] <= '9' || 'a' <= s[k] <= 'f' {
        assert s[k] == s[n..][k - n] && s[k] in s[n..];
      }
    }
  }

  lemma IdSpelled(id: string)
    ensures IsCheckpointId(id) <==>
      && |id| == 81 && id[8] == 'T' && id[15] == 'Z' && id[16] == '-'
      && (forall k :: 0 <= k < 15 && k != 8 ==> '0' <= id[k] <= '9')
      && (forall k :: 17 <= k < 81 ==> '0' <= id[k] <= '9' || 'a' <= id[k] <= 'f')
  {
    hide IsHexDigest;
    if |id| == 81 {
      HexSpelled(id, 17);
      var s := id[..16];
      if IsStamp(s) {
        forall k | 0 <= k < 15 && k != 8 ensures '0' <= id[k] <= '9' {
          assert k < 8 ==> s[..8][k] in s[..8];
          assert k > 8 ==> s[9..15][k - 9] in s[9..15];
        }
      }
      if forall k :: 0 <= k < 15 && k != 8 ==> '0' <= id[k] <= '9' {
        forall d | d in s[..8] ensures Decimal(d) {
          var k :| 0 <= k < 8 && s[..8][k] == d;
          assert id[k] == d;
        }
        forall d | d in s[9..15] ensures Decimal(d) {
          var k :| 0 <= k < 6 && s[9..15][k] == d;
          assert id[k + 9] == d;
        }
      }
    }
  }

  /** Reading the file: a running digest, one line after another. */
  method ReadRecords(c: Codec, ledger: Option<Bytes>) returns (r: Option<seq<Record>>)
    ensures ledger == None ==> r == Some([])
    ensures ledger.Some? ==> forall rs :: r == Some(rs) <==> RecordsFrom(c, ledger.value, 0, rs)
    ensures ledger.Some? ==> (r == None <==> !exists rs :: RecordsFrom(c, ledger.value, 0, rs))
    ensures ledger.Some? ==> forall rs :: r == Some(rs) <==> Chained(c, Lines(ledger.value), rs, [])
    ensures ledger.Some? ==> r == Read(c, ledger.value)
  {
    hide Lines, Chained, RecordsFrom;
    if ledger.Some? {
      ReadsRecords(c, ledger.value);
    }
    if ledger == None {
      return Some([]);
    }
    var lines := Lines(ledger.value);
    ReadsChained(c, lines);
    assert lines[0..] == lines;
    PrependedNothing(Read(c, ledger.value));
    var records := [];
    var digested: Bytes := [];
    for i := 0 to |lines|
      invariant Read(c, ledger.value) == Prepended(records, ReadFrom(c, lines[i..], digested))
    {
      assert lines[i..][0] == lines[i] && lines[i..][1..] == lines[i + 1..];
      var line := lines[i];
      if line == [] || line[|line| - 1] != LF {
        return None;
      }
      var record := c.parse(line);
      if record == None {
        return None;
      }
      if record.value.previous != c.Bound(digested) {
        return None;
      }
      PrependedTwice(records, record.value, ReadFrom(c, lines[i + 1..], digested + line));
      records := records + [record.value];
      digested := digested + line;
    }
    assert records + [] == records;
    return Some(records);
  }

  lemma ReadsChained(c: Codec, lines: seq<Bytes>)
    ensures forall rs :: ReadFrom(c, lines, []) == Some(rs) <==> Chained(c, lines, rs, [])
  {
    hide Chained;
    forall rs ensures ReadFrom(c, lines, []) == Some(rs) <==> Chained(c, lines, rs, []) {
      ReadIsChained(c, lines, rs, []);
    }
  }

  ghost function Prepended(front: seq<Record>, rest: Option<seq<Record>>): Option<seq<Record>> {
    match rest
    case None => None
    case Some(rs) => Some(front + rs)
  }

  lemma PrependedNothing(rest: Option<seq<Record>>)
    ensures Prepended([], rest) == rest
  {
    if rest.Some? {
      assert [] + rest.value == rest.value;
    }
  }

  lemma PrependedTwice(front: seq<Record>, r: Record, rest: Option<seq<Record>>)
    ensures Prepended(front, Prepended([r], rest)) == Prepended(front + [r], rest)
  {
    if rest.Some? {
      assert front + ([r] + rest.value) == (front + [r]) + rest.value;
    }
  }

  /** With an injective digest, an accepted ledger is fixed byte for byte by its last line. */
  lemma LastLineFixesTheLedger(c: Codec, a: Bytes, b: Bytes)
    requires c.Injective() && Read(c, a).Some? && Read(c, b).Some? && a != [] && b != []
    requires Lines(a)[|Lines(a)| - 1] == Lines(b)[|Lines(b)| - 1]
    ensures a == b
  {
    hide FirstLine, Lines;
    var p, q := Lines(a), Lines(b);
    ReadIsChained(c, p, Read(c, a).value, []);
    ReadIsChained(c, q, Read(c, b).value, []);
    SplitLast(a);
    SplitLast(b);
    var m, n := |p| - 1, |q| - 1;
    assert Linked(c, p[m], Read(c, a).value[m], [] + Joined(p[..m]));
    assert Linked(c, q[n], Read(c, b).value[n], [] + Joined(q[..n]));
    assert [] + Joined(p[..m]) == Joined(p[..m]) && [] + Joined(q[..n]) == Joined(q[..n]);
    BoundOnce(c, Joined(p[..m]), Joined(q[..n]));
  }

  lemma BoundOnce(c: Codec, x: Bytes, y: Bytes)
    requires c.Injective() && c.Bound(x) == c.Bound(y)
    ensures x == y
  {
    assert c.hash(x) == c.Bound(x)[|DIGEST_PREFIX|..] && c.hash(y) == c.Bound(y)[|DIGEST_PREFIX|..];
  }

  lemma SplitLast(b: Bytes)
    requires b != []
    ensures var lines := Lines(b); lines != [] && b == Joined(lines[..|lines| - 1]) + lines[|lines| - 1]
  {
    var lines := Lines(b);
    LinesJoin(b);
    JoinedSnoc(lines[..|lines| - 1], lines[|lines| - 1]);
    assert lines == lines[..|lines| - 1] + [lines[|lines| - 1]];
  }

  // ---- ledgers built by appending ----

  /** What appending the records one after another writes. */
  function Written(c: Codec, rs: seq<Record>): Bytes {
    if rs == [] then [] else Written(c, rs[..|rs| - 1]) + c.Line(rs[|rs| - 1])
  }

  /** Each record was chained to the ledger as it stood. */
  ghost predicate WellAppended(c: Codec, rs: seq<Record>) {
    forall k :: 0 <= k < |rs| ==> c.Valid(rs[k]) && rs[k].previous == c.Bound(Written(c, rs[..k]))
  }

  function LinesOf(c: Codec, rs: seq<Record>): (lines: seq<Bytes>)
    ensures |lines| == |rs| && forall k :: 0 <= k < |rs| ==> lines[k] == c.Line(rs[k])
  {
    seq(|rs|, k requires 0 <= k < |rs| => c.Line(rs[k]))
  }

  /** Splitting what was written, and perhaps a last piece without an end, gives back the lines. */
  lemma {:induction false} WrittenSplits(c: Codec, lines: seq<Bytes>, rs: seq<Record>, piece: Bytes)
    requires Plain(piece) && lines == LinesOf(c, rs) && forall k :: 0 <= k < |rs| ==> Plain(c.encode(rs[k]))
    ensures Lines(Joined(lines) + piece) == lines + if piece == [] then [] else [piece]
    decreases |rs|
  {
    hide FirstLine, Codec.Valid, Lines;
    if rs == [] {
      assert Joined(lines) + piece == piece;
      PlainSplits(piece);
    } else {
      assert lines[1..] == LinesOf(c, rs[1..]);
      WrittenSplits(c, lines[1..], rs[1..], piece);
      var enc := c.encode(rs[0]);
      var rest := Joined(lines[1..]) + piece;
      assert Joined(lines) + piece == enc + ([LF] + rest);
      PlainLineSplits(enc, rest);
      assert lines == [lines[0]] + lines[1..];
    }
  }

  lemma PlainSplits(piece: Bytes)
    requires Plain(piece)
    ensures Lines(piece) == if piece == [] then [] else [piece]
  {
    hide FirstLine;
    PlainIsOneLine(piece);
    assert piece[..|piece|] == piece && piece[|piece|..] == [];
  }

  lemma PlainLineSplits(enc: Bytes, rest: Bytes)
    requires Plain(enc)
    ensures Lines(enc + ([LF] + rest)) == [enc + [LF]] + Lines(rest)
  {
    hide FirstLine;
    PlainLineFirst(enc, rest);
    var all := enc + ([LF] + rest);
    assert all[..|enc| + 1] == enc + [LF] && all[|enc| + 1..] == rest;
  }

  lemma AppendedArePlain(c: Codec, rs: seq<Record>)
    requires c.Lawful() && WellAppended(c, rs)
    ensures forall k :: 0 <= k < |rs| ==> Plain(c.encode(rs[k]))
  {
    hide Codec.Valid, Written;
  }

  lemma {:induction false} WrittenJoined(c: Codec, rs: seq<Record>)
    ensures Written(c, rs) == Joined(LinesOf(c, rs))
    decreases |rs|
  {
    if rs != [] {
      var n := |rs| - 1;
      WrittenJoined(c, rs[..n]);
      JoinedSnoc(LinesOf(c, rs[..n]), c.Line(rs[n]));
      assert LinesOf(c, rs) == LinesOf(c, rs[..n]) + [c.Line(rs[n])];
    }
  }

  /** What was appended is read back, in order. */
  lemma WrittenReads(c: Codec, rs: seq<Record>)
    requires c.Lawful() && WellAppended(c, rs)
    ensures Read(c, Written(c, rs)) == Some(rs)
  {
    hide Lines, Joined, Written;
    var lines := LinesOf(c, rs);
    WrittenJoined(c, rs);
    AppendedArePlain(c, rs);
    WrittenSplits(c, lines, rs, []);
    assert Joined(lines) + [] == Joined(lines) && lines + [] == lines;
    WrittenChained(c, rs);
    ReadIsChained(c, lines, rs, []);
  }

  lemma WrittenChained(c: Codec, rs: seq<Record>)
    requires c.Lawful() && WellAppended(c, rs)
    ensures Chained(c, LinesOf(c, rs), rs, [])
  {
    hide Joined, Written;
    var lines := LinesOf(c, rs);
    forall k | 0 <= k < |rs| ensures Linked(c, lines[k], rs[k], [] + Joined(lines[..k])) {
      WrittenJoined(c, rs[..k]);
      assert lines[..k] == LinesOf(c, rs[..k]);
      assert [] + Joined(lines[..k]) == Joined(lines[..k]);
      assert c.Valid(rs[k]);
    }
  }

  lemma {:induction false} UnendedIsRefused(c: Codec, lines: seq<Bytes>, seen: Bytes, k: nat)
    requires k < |lines| && (lines[k] == [] || lines[k][|lines[k]| - 1] != LF)
    ensures ReadFrom(c, lines, seen) == None
    decreases k
  {
    if k > 0 {
      UnendedIsRefused(c, lines[1..], seen + lines[0], k - 1);
    }
  }

  /** A last line that was torn makes the whole ledger refused. */
  lemma TornIsRefused(c: Codec, rs: seq<Record>, piece: Bytes)
    requires c.Lawful() && WellAppended(c, rs) && Plain(piece) && piece != []
    ensures Read(c, Written(c, rs) + piece) == None
  {
    hide Lines, Joined, Written;
    var lines := LinesOf(c, rs) + [piece];
    WrittenJoined(c, rs);
    AppendedArePlain(c, rs);
    WrittenSplits(c, LinesOf(c, rs), rs, piece);
    assert piece[|piece| - 1] in piece;
    assert lines[|rs|] == piece;
    UnendedIsRefused(c, lines, [], |rs|);
  }
}
