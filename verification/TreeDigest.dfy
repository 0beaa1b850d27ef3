/** The bytes a tree of files feeds to its digest: each path and each content behind its length in
    eight big-endian bytes.  No two listings feed the same bytes. */
module TreeDigest {
  import opened Ledger
  import opened Wrappers

  const LENGTH_BYTES: nat := 8

  /** `n` in `k` big-endian bytes. */
  function BigEndian(n: nat, k: nat): (b: Bytes)
    ensures |b| == k
  {
    if k == 0 then [] else BigEndian(n / 256, k - 1) + [n % 256]
  }

  function Value(b: Bytes): nat {
    if b == [] then 0 else 256 * Value(b[..|b| - 1]) + b[|b| - 1]
  }

  function Limit(k: nat): nat { if k == 0 then 1 else 256 * Limit(k - 1) }

  lemma {:induction false} ValueOfBigEndian(n: nat, k: nat)
    requires n < Limit(k)
    ensures Value(BigEndian(n, k)) == n
    decreases k
  {
    if k > 0 {
      var high := BigEndian(n / 256, k - 1);
      assert n / 256 < Limit(k - 1);
      ValueOfBigEndian(n / 256, k - 1);
      assert (high + [n % 256])[..k - 1] == high;
    }
  }

  /** One file: its path relative to the root, and its content. */
  datatype File = File(path: Bytes, content: Bytes) {
    predicate Fits() { |path| < Limit(LENGTH_BYTES) && |content| < Limit(LENGTH_BYTES) }
  }

  function Prefixed(b: Bytes): Bytes { BigEndian(|b|, LENGTH_BYTES) + b }

  function Fed(files: seq<File>): Bytes {
    if files == [] then [] else Prefixed(files[0].path) + (Prefixed(files[0].content) + Fed(files[1..]))
  }

  /** A length prefix tells where the piece ends. */
  lemma PrefixedSplits(a: Bytes, x: Bytes, b: Bytes, y: Bytes)
    requires |a| < Limit(LENGTH_BYTES) && |b| < Limit(LENGTH_BYTES)
    requires Prefixed(a) + x == Prefixed(b) + y
    ensures a == b && x == y
  {
    hide BigEndian, Value, Limit;
    var all := Prefixed(a) + x;
    assert all[..LENGTH_BYTES] == BigEndian(|a|, LENGTH_BYTES) && all[..LENGTH_BYTES] == BigEndian(|b|, LENGTH_BYTES);
    ValueOfBigEndian(|a|, LENGTH_BYTES);
    ValueOfBigEndian(|b|, LENGTH_BYTES);
    var n := LENGTH_BYTES + |a|;
    assert all[LENGTH_BYTES..n] == a && all[LENGTH_BYTES..n] == b;
    assert all[n..] == x && all[n..] == y;
  }

  /** The encoding is uniquely decodable. */
  lemma {:induction false} FedOnce(a: seq<File>, b: seq<File>)
    requires (forall f <- a :: f.Fits()) && (forall f <- b :: f.Fits())
    requires Fed(a) == Fed(b)
    ensures a == b
    decreases |a|
  {
    hide Limit, BigEndian;
    if a == [] || b == [] {
      FedNothing(a);
      FedNothing(b);
    } else {
      assert a[0].Fits() && b[0].Fits();
      PrefixedSplits(a[0].path, Prefixed(a[0].content) + Fed(a[1..]), b[0].path, Prefixed(b[0].content) + Fed(b[1..]));
      PrefixedSplits(a[0].content, Fed(a[1..]), b[0].content, Fed(b[1..]));
      assert a[0] == b[0];
      FedOnce(a[1..], b[1..]);
      assert a == [a[0]] + a[1..] && b == [b[0]] + b[1..];
    }
  }

  lemma FedNothing(files: seq<File>)
    ensures Fed(files) == [] <==> files == []
  {
  }

  // ---- the bytes, place by place ----

  /** Each piece stands behind its length in eight bytes, the highest first, and nothing else is there. */
  ghost predicate Framed(fed: Bytes, pieces: seq<Bytes>)
    decreases |pieces|
  {
    if pieces == [] then fed == []
    else
      var n := |pieces[0]|;
      && |fed| >= 8 + n
      && fed[0] == n / 0x100_0000_0000_0000 % 256 && fed[1] == n / 0x1_0000_0000_0000 % 256
      && fed[2] == n / 0x100_0000_0000 % 256 && fed[3] == n / 0x1_0000_0000 % 256
      && fed[4] == n / 0x100_0000 % 256 && fed[5] == n / 0x1_0000 % 256
      && fed[6] == n / 0x100 % 256 && fed[7] == n % 256
      && fed[8..8 + n] == pieces[0] && Framed(fed[8 + n..], pieces[1..])
  }

  /** Each file's path and then its content, in the order of the files. */
  ghost predicate Listed(files: seq<File>, pieces: seq<Bytes>) {
    && |pieces| == 2 * |files|
    && forall i :: 0 <= i < |files| ==> pieces[2 * i] == files[i].path && pieces[2 * i + 1] == files[i].content
  }

  ghost function Pieces(files: seq<File>): (pieces: seq<Bytes>)
    ensures |pieces| == 2 * |files|
  {
    if files == [] then [] else [files[0].path] + ([files[0].content] + Pieces(files[1..]))
  }

  lemma {:induction false} PiecesAt(files: seq<File>, i: nat)
    requires i < |files|
    ensures Pieces(files)[2 * i] == files[i].path && Pieces(files)[2 * i + 1] == files[i].content
    decreases i
  {
    if i > 0 {
      var rest := Pieces(files[1..]);
      PiecesAt(files[1..], i - 1);
      assert Pieces(files) == [files[0].path, files[0].content] + rest;
      hide Pieces;
      assert Pieces(files)[2 * i] == rest[2 * (i - 1)];
      assert Pieces(files)[2 * i + 1] == rest[2 * (i - 1) + 1];
    }
  }

  lemma PiecesListed(files: seq<File>)
    ensures Listed(files, Pieces(files))
  {
    hide Pieces;
    forall i | 0 <= i < |files|
      ensures Pieces(files)[2 * i] == files[i].path && Pieces(files)[2 * i + 1] == files[i].content
    {
      PiecesAt(files, i);
    }
  }

  lemma LastByte(n: nat, k: nat)
    requires k > 0
    ensures BigEndian(n, k)[k - 1] == n % 256
    ensures forall i :: 0 <= i < k - 1 ==> BigEndian(n, k)[i] == BigEndian(n / 256, k - 1)[i]
  {
  }

  lemma Shifts(n: nat)
    ensures n / 0x100 / 256 == n / 0x1_0000 && n / 0x1_0000 / 256 == n / 0x100_0000
    ensures n / 0x100_0000 / 256 == n / 0x1_0000_0000 && n / 0x1_0000_0000 / 256 == n / 0x100_0000_0000
    ensures n / 0x100_0000_0000 / 256 == n / 0x1_0000_0000_0000
    ensures n / 0x1_0000_0000_0000 / 256 == n / 0x100_0000_0000_0000
  {
  }

  lemma EightBytes(n: nat)
    ensures var b := BigEndian(n, 8);
      && b[0] == n / 0x100_0000_0000_0000 % 256 && b[1] == n / 0x1_0000_0000_0000 % 256
      && b[2] == n / 0x100_0000_0000 % 256 && b[3] == n / 0x1_0000_0000 % 256
      && b[4] == n / 0x100_0000 % 256 && b[5] == n / 0x1_0000 % 256
      && b[6] == n / 0x100 % 256 && b[7] == n % 256
  {
    hide BigEndian;
    Shifts(n);
    LastByte(n, 8);
    LastByte(n / 0x100, 7);
    LastByte(n / 0x1_0000, 6);
    LastByte(n / 0x100_0000, 5);
    LastByte(n / 0x1_0000_0000, 4);
    LastByte(n / 0x100_0000_0000, 3);
    LastByte(n / 0x1_0000_0000_0000, 2);
    LastByte(n / 0x100_0000_0000_0000, 1);
  }

  lemma FitsEight()
    ensures Limit(LENGTH_BYTES) == 0x1_0000_0000_0000_0000
  {
    assert Limit(2) == 0x1_0000;
    assert Limit(4) == 0x1_0000_0000;
    assert Limit(6) == 0x1_0000_0000_0000;
  }

  lemma FitsSpelled(files: seq<File>)
    ensures forall f <- files :: f.Fits() <==>
      |f.path| < 0x1_0000_0000_0000_0000 && |f.content| < 0x1_0000_0000_0000_0000
  {
    FitsEight();
  }

  lemma PrefixedFrames(piece: Bytes, fed: Bytes, pieces: seq<Bytes>)
    requires Framed(fed, pieces)
    ensures Framed(Prefixed(piece) + fed, [piece] + pieces)
  {
    hide BigEndian;
    EightBytes(|piece|);
    var all := Prefixed(piece) + fed;
    assert all[8..8 + |piece|] == piece && all[8 + |piece|..] == fed;
    assert ([piece] + pieces)[1..] == pieces;
  }

  lemma {:induction false} FedIsFramed(files: seq<File>)
    ensures Framed(Fed(files), Pieces(files))
    decreases |files|
  {
    hide Prefixed;
    if files != [] {
      var rest := Pieces(files[1..]);
      FedIsFramed(files[1..]);
      PrefixedFrames(files[0].content, Fed(files[1..]), rest);
      PrefixedFrames(files[0].path, Prefixed(files[0].content) + Fed(files[1..]), [files[0].content] + rest);
    }
  }

  /** With an injective digest, equal tree digests mean equal listings: the same paths with the same contents. */
  lemma DigestFixesTheTree(hash: Bytes -> Digest, a: seq<File>, b: seq<File>)
    requires forall x: Bytes, y: Bytes :: hash(x) == hash(y) ==> x == y
    requires (forall f <- a :: f.Fits()) && (forall f <- b :: f.Fits())
    ensures "sha256:" + hash(Fed(a)) == "sha256:" + hash(Fed(b)) <==> a == b
  {
    hide Fed, File.Fits;
    if "sha256:" + hash(Fed(a)) == "sha256:" + hash(Fed(b)) {
      assert ("sha256:" + hash(Fed(a)))[7..] == hash(Fed(a)) && ("sha256:" + hash(Fed(b)))[7..] == hash(Fed(b));
      FedOnce(a, b);
    }
  }

  lemma {:induction false} FedSnoc(files: seq<File>, f: File)
    ensures Fed(files + [f]) == Fed(files) + (Prefixed(f.path) + Prefixed(f.content))
    decreases |files|
  {
    hide BigEndian;
    var all := files + [f];
    if files == [] {
      assert all[1..] == [];
    } else {
      assert all[1..] == files[1..] + [f];
      FedSnoc(files[1..], f);
    }
  }

  /** The digest of a sorted listing, fed file by file; a length that does not fit eight bytes overflows. */
  method DigestTree(hash: Bytes -> Digest, files: seq<File>) returns (digest: Option<Digest>)
    ensures digest == None <==>
      exists f <- files :: |f.path| >= 0x1_0000_0000_0000_0000 || |f.content| >= 0x1_0000_0000_0000_0000
    ensures digest.Some? ==> exists fed, pieces ::
      digest.value == "sha256:" + hash(fed) && Framed(fed, pieces) && Listed(files, pieces)
    ensures digest.Some? ==> digest.value == "sha256:" + hash(Fed(files))
  {
    FitsSpelled(files);
    FedIsFramed(files);
    FedNothing([]);
    PiecesListed(files);
    hide BigEndian, Limit, Framed, Pieces, Fed, Listed, File.Fits;
    var fed: Bytes := [];
    assert files[..0] == [];
    for i := 0 to |files|
      invariant fed == Fed(files[..i]) && forall j :: 0 <= j < i ==> files[j].Fits()
    {
      var f := files[i];
      if !f.Fits() {
        assert f in files;
        return None;
      }
      FedSnoc(files[..i], f);
      assert files[..i + 1] == files[..i] + [f];
      fed := fed + BigEndian(|f.path|, LENGTH_BYTES);
      fed := fed + f.path;
      fed := fed + BigEndian(|f.content|, LENGTH_BYTES);
      fed := fed + f.content;
    }
    assert files[..|files|] == files;
    assert "sha256:" + hash(fed) == "sha256:" + hash(Fed(files)) && Framed(Fed(files), Pieces(files));
    return Some("sha256:" + hash(fed));
  }
}
