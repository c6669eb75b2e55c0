/** Copying a file's content into a private temporary file: `writeFileContent` of `src/machine/file-content.ts`, under
    every schedule of short reads and short writes, and whatever the source file does meanwhile. */
module FileContent {
  import opened Options

  type Bytes = seq<bv8>

  datatype Content = Literal(bytes: Bytes) | File(digest: string)

  datatype Stat = Stat(isFile: bool, device: nat, inode: nat, size: nat, modified: int, changed: int)

  /** What the operating system answers: the handle's and the path's states before and after, what the n-th read
      delivers, how much the n-th write takes, what becomes of writing a whole text at once (how much is written if that
      fails), and whether closing works. Any call may fail instead. */
  datatype Host = Host(
    pathIsPlain: bool,
    start: Option<Stat>,
    visible: Option<Stat>,
    finish: Option<Stat>,
    current: Option<Stat>,
    read: nat -> Option<Bytes>,
    accept: nat -> Option<nat>,
    cutShort: Option<nat>,
    closes: bool,
    sha256: Bytes -> string)

  datatype CopyError = BadPath | HostFailure | NotStable | Changed | NoProgress | DigestMismatch

  const CHUNK_SIZE: nat := 64 * 1024

  /** What the n-th read puts into the chunk; nothing at the end of the file, or if it fails. */
  function Chunk(host: Host, n: nat): (chunk: Bytes)
    ensures |chunk| <= 0x10000
    ensures host.read(n).Some? ==> chunk <= host.read(n).value
    ensures host.read(n).Some? && |host.read(n).value| <= 0x10000 ==> chunk == host.read(n).value
  {
    var bytes := OrElse(host.read(n), []);
    if |bytes| <= CHUNK_SIZE then bytes else bytes[..CHUNK_SIZE]
  }

  /** What the first n reads deliver. */
  function Delivered(host: Host, n: nat): Bytes {
    if n == 0 then [] else Delivered(host, n - 1) + Chunk(host, n - 1)
  }

  /** The n-th read is the first that delivers nothing, and no read up to it fails. */
  ghost predicate EndsAt(host: Host, n: nat) {
    host.read(n).Some? && Chunk(host, n) == [] && forall k: nat :: k < n ==> Chunk(host, k) != []
  }

  predicate SameFile(one: Stat, other: Stat) {
    one.device == other.device && one.inode == other.inode
  }

  /** What was opened is a regular file, and the path names this file. */
  ghost predicate IsStableAtOpen(host: Host) {
    && host.start.Some? && host.visible.Some?
    && host.start.value.isFile && host.visible.value.isFile
    && host.start.value.device == host.visible.value.device && host.start.value.inode == host.visible.value.inode
  }

  /** Size and times of the open file, and the file at the path, are as they were at opening. */
  ghost predicate IsUnchanged(host: Host)
    requires host.start.Some?
  {
    var first := host.start.value;
    && host.finish.Some? && host.current.Some?
    && host.current.value.isFile
    && first.device == host.current.value.device && first.inode == host.current.value.inode
    && host.finish.value.size == first.size && host.finish.value.modified == first.modified
    && host.finish.value.changed == first.changed
  }

  /** The reads deliver a whole file: as many bytes as it had at opening, with the expected digest. */
  ghost predicate DeliversContent(host: Host, digest: string, n: nat) {
    && host.start.Some? && EndsAt(host, n)
    && |Delivered(host, n)| == host.start.value.size && host.sha256(Delivered(host, n)) == digest
  }

  ghost predicate CanCopy(host: Host, digest: string) {
    && host.pathIsPlain && IsStableAtOpen(host) && IsUnchanged(host) && host.closes
    && exists n: nat :: DeliversContent(host, digest, n)
  }

  /** No write fails, and every write takes something. */
  ghost predicate WritesProgress(host: Host) {
    forall n: nat :: OrElse(host.accept(n), 0) > 0
  }

  ghost predicate DigestsTellApart(host: Host) {
    forall one: Bytes, other: Bytes :: host.sha256(one) == host.sha256(other) ==> one == other
  }

  class Destination {
    var bytes: Bytes

    /** May take only a part of what is offered, from the front. */
    method Write(chunk: Bytes, offset: nat, limit: nat) returns (written: nat)
      requires offset < |chunk|
      modifies this
      ensures written <= limit && written <= |chunk| - offset && (written == limit || written == |chunk| - offset)
      ensures bytes == old(bytes) + chunk[offset..offset + written]
    {
      written := Min(limit, |chunk| - offset);
      bytes := bytes + chunk[offset..offset + written];
    }

    /** The inner loop: one chunk, in as many writes as it takes. */
    method WriteChunk(host: Host, chunk: Bytes, writes: nat) returns (error: Option<CopyError>, next: nat)
      modifies this
      ensures error.None? ==> bytes == old(bytes) + chunk
      ensures old(bytes) <= bytes <= old(bytes) + chunk
      ensures WritesProgress(host) ==> error.None?
    {
      var offset := 0;
      next := writes;
      assert chunk[..0] == [];
      while offset < |chunk|
        invariant offset <= |chunk| && bytes == old(bytes) + chunk[..offset]
      {
        if host.accept(next).None? { return Some(HostFailure), next + 1; }
        var written := Write(chunk, offset, host.accept(next).value);
        next := next + 1;
        if written == 0 { return Some(NoProgress), next; }
        assert chunk[..offset + written] == chunk[..offset] + chunk[offset..offset + written];
        offset := offset + written;
      }
      error := None;
      assert chunk[..offset] == chunk;
    }

    /** The copy loop, up to the read that delivers nothing; the digest is fed what is read. */
    method CopyAll(host: Host, size: nat)
      returns (error: Option<CopyError>, total: nat, hashed: Bytes, ghost count: nat)
      modifies this
      ensures error.None? ==> EndsAt(host, count) && bytes == old(bytes) + Delivered(host, count)
      ensures error.None? ==> hashed == Delivered(host, count) && total == |hashed| <= size
      ensures old(bytes) <= bytes <= old(bytes) + Delivered(host, count + 1)
      ensures error.Some? && WritesProgress(host) ==> forall n: nat :: EndsAt(host, n) ==> |Delivered(host, n)| > size
    {
      var writes := 0;
      var n := 0;
      total, hashed, count := 0, [], 0;
      while true
        invariant bytes == old(bytes) + hashed && hashed == Delivered(host, n) && total == |hashed| <= size
        invariant forall k: nat :: k < n ==> Chunk(host, k) != []
        decreases size - total
      {
        count := n;
        if host.read(n).None? { return Some(HostFailure), total, hashed, n; }
        var chunk := Chunk(host, n);
        if chunk == [] { return None, total, hashed, n; }
        total := total + |chunk|;
        if total > size {
          EndsLater(host, n, size);
          return Some(Changed), total, hashed, n;
        }
        hashed := hashed + chunk;
        error, writes := WriteChunk(host, chunk, writes);
        if error.Some? { return error, total, hashed, n; }
        n := n + 1;
      }
    }

    /** The copy from the open file, before it is closed. */
    method CopyOpened(host: Host, digest: string) returns (error: Option<CopyError>, ghost count: nat)
      requires host.start.Some?
      modifies this
      ensures error.None? ==> IsStableAtOpen(host) && IsUnchanged(host) && DeliversContent(host, digest, count)
      ensures error.None? ==> bytes == old(bytes) + Delivered(host, count)
      ensures old(bytes) <= bytes <= old(bytes) + Delivered(host, count + 1)
      ensures WritesProgress(host) && IsStableAtOpen(host) && IsUnchanged(host)
        ==> forall n: nat :: DeliversContent(host, digest, n) ==> error.None?
    {
      count := 0;
      if host.visible.None? { return Some(HostFailure), count; }
      var first := host.start.value;
      if !first.isFile || !host.visible.value.isFile
        || !SameFile(first, host.visible.value) { return Some(NotStable), count; }
      var total, hashed;
      error, total, hashed, count := CopyAll(host, first.size);
      if error.Some? { return; }
      forall n: nat | EndsAt(host, n) ensures n == count { EndIsUnique(host, n, count); }
      if host.finish.None? || host.current.None? { return Some(HostFailure), count; }
      var final, current := host.finish.value, host.current.value;
      if !current.isFile || !SameFile(first, current) || total != first.size
        || final.size != first.size || final.modified != first.modified || final.changed != first.changed {
        return Some(Changed), count;
      }
      if host.sha256(hashed) != digest { return Some(DigestMismatch), count; }
      assert DeliversContent(host, digest, count);
    }

    /** On success the destination holds exactly what was read: as many bytes as the file had at opening, with the
        expected digest, from a file that was still the same; so it is the content the digest was made of, whatever the
        file did meanwhile. It succeeds whenever such a file is read and writes progress. Whatever call fails, what is
        there before is kept and only a part of what was read comes behind it. */
    method WriteFileContent(host: Host, content: Content) returns (error: Option<CopyError>, ghost count: nat)
      modifies this
      ensures content.Literal?
        ==> (error.None? <==> host.cutShort.None?) && old(bytes) <= bytes <= old(bytes) + content.bytes
            && (error.Some? ==> |bytes| - |old(bytes)| in {host.cutShort.value, |content.bytes|}
                                && |bytes| - |old(bytes)| <= host.cutShort.value)
            && (error.None? ==> bytes == old(bytes) + content.bytes)
      ensures content.File? && error.None? ==>
        && host.pathIsPlain && IsStableAtOpen(host) && IsUnchanged(host) && DeliversContent(host, content.digest, count)
        && bytes == old(bytes) + Delivered(host, count)
      ensures content.File? ==> old(bytes) <= bytes <= old(bytes) + Delivered(host, count + 1)
      ensures content.File? && error.None? && DigestsTellApart(host)
        ==> forall original: Bytes :: host.sha256(original) == content.digest ==> bytes == old(bytes) + original
      ensures content.File? && WritesProgress(host) ==> (error.None? <==> CanCopy(host, content.digest))
    {
      count := 0;
      if content.Literal? {
        if host.cutShort.Some? {
          bytes := bytes + content.bytes[..Min(host.cutShort.value, |content.bytes|)];
          return Some(HostFailure), count;
        }
        bytes := bytes + content.bytes;
        return None, count;
      }
      if !host.pathIsPlain { return Some(BadPath), count; }
      if host.start.None? { return Some(HostFailure), count; }
      error, count := CopyOpened(host, content.digest);
      if !host.closes { error := Some(HostFailure); }
    }
  }

  function Min(one: nat, other: nat): nat {
    if one < other then one else other
  }

  lemma {:induction false} DeliveredGrows(host: Host, n: nat, m: nat)
    requires n <= m
    ensures |Delivered(host, n)| <= |Delivered(host, m)|
    decreases m
  {
    if n < m { DeliveredGrows(host, n, m - 1); }
  }

  lemma EndsLater(host: Host, n: nat, size: nat)
    requires Chunk(host, n) != [] && (forall k: nat :: k < n ==> Chunk(host, k) != [])
             && |Delivered(host, n)| + |Chunk(host, n)| > size
    ensures forall m: nat :: EndsAt(host, m) ==> |Delivered(host, m)| > size
  {
    forall m: nat | EndsAt(host, m) ensures |Delivered(host, m)| > size {
      assert m > n;
      DeliveredGrows(host, n + 1, m);
    }
  }

  lemma EndIsUnique(host: Host, n: nat, m: nat)
    requires EndsAt(host, n) && EndsAt(host, m)
    ensures n == m
  {
  }

  // ---------------------------------------------------------------- a file that stays as it is

  /** Every read delivers some of what is left of these bytes, and something unless nothing is left. */
  ghost predicate Reads(host: Host, bytes: Bytes) {
    forall n: nat :: ReadsOn(host, bytes, n)
  }

  ghost predicate ReadsOn(host: Host, bytes: Bytes, n: nat) {
    Delivered(host, n) <= bytes ==>
      host.read(n).Some? && Delivered(host, n + 1) <= bytes && (Chunk(host, n) == [] ==> Delivered(host, n) == bytes)
  }

  lemma {:induction false} ReadToTheEnd(host: Host, bytes: Bytes, n: nat) returns (end: nat)
    requires Reads(host, bytes) && Delivered(host, n) <= bytes && forall k: nat :: k < n ==> Chunk(host, k) != []
    ensures EndsAt(host, end) && Delivered(host, end) == bytes
    decreases |bytes| - |Delivered(host, n)|
  {
    assert ReadsOn(host, bytes, n);
    if Chunk(host, n) == [] {
      end := n;
    } else {
      assert |Delivered(host, n + 1)| == |Delivered(host, n)| + |Chunk(host, n)|;
      end := ReadToTheEnd(host, bytes, n + 1);
    }
  }

  /** However its reads are cut, a file that stays as it is can be copied exactly when it has the expected digest, and
      the whole of it is what is delivered. */
  lemma StableFileIsCopied(host: Host, bytes: Bytes, digest: string)
    requires host.pathIsPlain && IsStableAtOpen(host) && IsUnchanged(host)
    requires Reads(host, bytes) && host.start.value.size == |bytes|
    ensures CanCopy(host, digest) <==> host.closes && host.sha256(bytes) == digest
    ensures forall n: nat :: DeliversContent(host, digest, n) ==> Delivered(host, n) == bytes
  {
    assert Delivered(host, 0) == [];
    var end := ReadToTheEnd(host, bytes, 0);
    forall n: nat | EndsAt(host, n) ensures n == end { EndIsUnique(host, n, end); }
    if host.sha256(bytes) == digest { assert DeliversContent(host, digest, end); }
  }
}
