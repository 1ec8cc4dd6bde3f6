/** Whole, non-overlapping commits to the solv cache (crates/dnfast-cache/src/solv_cache.rs): which
    content wins a binding, and that every commit leaves the binding open for readers. */
module SolvCommit {
  import opened Bytes
  import opened SolvCache

  const BUFFER := 65536

  /** `verify_stream`: the file is hashed one buffer at a time. */
  method HashFile(sha: Sha256, bytes: seq<Byte>) returns (ok: bool, digest: Digest, size: nat)
    ensures ok == (0 < |bytes| <= MAX_SOLV_BYTES)
    ensures ok ==> digest == sha(bytes) && size == |bytes|
  {
    var fed: seq<Byte> := [];
    while |fed| < |bytes|
      invariant fed <= bytes
      invariant |fed| <= MAX_SOLV_BYTES
      decreases |bytes| - |fed|
    {
      var count := if |bytes| - |fed| < BUFFER then |bytes| - |fed| else BUFFER;
      if |fed| + count > MAX_SOLV_BYTES {
        return false, [], 0;
      }
      fed := fed + bytes[|fed|..|fed| + count];
    }
    if fed == [] {
      return false, [], 0;
    }
    assert fed == bytes;
    return true, sha(fed), |fed|;
  }

  class Directory {
    const sha: Sha256
    /** What the file system offers: verity, checksums, or nothing. */
    const protection: Option<Protection>
    var inodes: map<nat, Inode>
    var contents: map<(Digest, Digest), nat>
    var cookies: map<(Digest, Digest), Cookie>
    var references: map<Digest, Reference>
    var clock: nat
    var nextInode: nat

    constructor (sha: Sha256, protection: Option<Protection>)
      ensures Valid() && contents == map[] && cookies == map[] && references == map[]
    {
      this.sha, this.protection := sha, protection;
      inodes, contents, cookies, references := map[], map[], map[], map[];
      clock, nextInode := 0, 0;
    }

    predicate Valid()
      reads this
    {
      && (forall n :: n in contents ==> contents[n] in inodes)
      && (forall i :: i in inodes ==> i < nextInode && inodes[i].generation < clock)
    }

    /** The content is there, of a legal size, and either its cookie matches or, without a cookie, its
        hash does. */
    predicate Opens(binding: Digest, digest: Digest)
      requires Valid()
      reads this
    {
      (binding, digest) in contents &&
      var file := inodes[contents[(binding, digest)]];
      0 < |file.bytes| <= MAX_SOLV_BYTES &&
      if (binding, digest) in cookies then
        var cookie := cookies[(binding, digest)];
        cookie == Cookie(binding, digest, |file.bytes|, file.generation, cookie.protection) &&
        protection == Some(cookie.protection)
      else sha(file.bytes) == digest
    }

    /** The binding refers to a content that opens. */
    predicate HasWinner(binding: Digest)
      requires Valid()
      reads this
    {
      binding in references && references[binding].Named? && Opens(binding, references[binding].sha256)
    }

    /** `open_content_inner`. */
    method OpenContent(binding: Digest, digest: Digest) returns (outcome: Outcome)
      requires Valid()
      modifies this`cookies
      ensures Valid()
      ensures if old(Opens(binding, digest)) then
                Opens(binding, digest) &&
                var inode := contents[(binding, digest)];
                outcome == Opened(Handle(inode, inodes[inode].generation, digest, |inodes[inode].bytes|))
              else outcome == Failed(Corrupt) && cookies == old(cookies)
      ensures forall b, d :: (b, d) != (binding, digest) ==> Opens(b, d) == old(Opens(b, d))
    {
      if (binding, digest) !in contents {
        return Failed(Corrupt);
      }
      var inode := contents[(binding, digest)];
      var file := inodes[inode];
      if |file.bytes| == 0 || |file.bytes| > MAX_SOLV_BYTES {
        return Failed(Corrupt);
      }
      var size := |file.bytes|;
      if (binding, digest) in cookies {
        var cookie := cookies[(binding, digest)];
        if cookie.binding != binding || cookie.sha256 != digest || cookie.size != size ||
           cookie.generation != file.generation || protection != Some(cookie.protection) {
          return Failed(Corrupt);
        }
      } else {
        var ok, actual, total := HashFile(sha, file.bytes);
        if !ok || actual != digest {
          return Failed(Corrupt);
        }
        if protection.Some? {
          cookies := cookies[(binding, digest) := Cookie(binding, digest, total, file.generation, protection.value)];
        }
      }
      return Opened(Handle(inode, file.generation, digest, size));
    }

    /** `open_cached`, which is also `SolvCache::open`. */
    method OpenCached(binding: Digest) returns (outcome: Outcome)
      requires Valid()
      modifies this`cookies
      ensures Valid()
      ensures binding !in references ==> outcome == Missing && cookies == old(cookies)
      ensures outcome.Opened? <==> old(HasWinner(binding))
      ensures outcome.Opened? ==> outcome.handle.sha256 == references[binding].sha256 && HasWinner(binding)
      ensures forall b, d :: b != binding ==> Opens(b, d) == old(Opens(b, d))
      ensures forall d :: old(Opens(binding, d)) ==> Opens(binding, d)
    {
      if binding !in references {
        return Missing;
      }
      match references[binding]
      case Malformed => outcome := Failed(Corrupt);
      case Named(digest) => outcome := OpenContent(binding, digest);
    }

    /** The staged bytes become a file without a name. */
    method Stage(bytes: seq<Byte>) returns (inode: nat)
      requires Valid()
      modifies this`inodes, this`clock, this`nextInode
      ensures Valid()
      ensures inode !in old(inodes) && inodes == old(inodes)[inode := Inode(bytes, old(clock))]
      ensures forall b, d :: Opens(b, d) == old(Opens(b, d))
    {
      inode := nextInode;
      inodes := inodes[inode := Inode(bytes, clock)];
      clock, nextInode := clock + 1, nextInode + 1;
    }

    /** First part of `commit`: the staged content takes its name, over whatever differs there, and is
        opened again under a new cookie. */
    method LinkContent(binding: Digest, inode: nat, digest: Digest, size: nat) returns (outcome: Outcome)
      requires Valid() && inode in inodes
      requires 0 < |inodes[inode].bytes| <= MAX_SOLV_BYTES
      requires digest == sha(inodes[inode].bytes) && size == |inodes[inode].bytes|
      modifies this`contents, this`cookies
      ensures Valid() && Opens(binding, digest)
      ensures outcome.Opened? && outcome.handle.size == size
      ensures forall b, d :: (b, d) != (binding, digest) ==> Opens(b, d) == old(Opens(b, d))
    {
      var name := (binding, digest);
      if name in contents {
        var existing := inodes[contents[name]];
        var ok, actual, total := HashFile(sha, existing.bytes);
        if !ok || actual != digest || total != size {
          contents := contents[name := inode];
        }
      } else {
        contents := contents[name := inode];
      }
      cookies := cookies - {name};
      outcome := OpenContent(binding, digest);
    }

    /** Last part of `commit`: the reference goes to the staged content unless what it names opens. */
    method BindReference(binding: Digest, digest: Digest) returns (outcome: Outcome)
      requires Valid() && Opens(binding, digest)
      modifies this`references, this`cookies
      ensures Valid()
      ensures outcome.Opened? && HasWinner(binding) && Opens(binding, digest)
      ensures references == old(references)[binding := Named(outcome.handle.sha256)]
      ensures outcome.handle.sha256 == if old(HasWinner(binding)) then old(references[binding].sha256) else digest
      ensures forall b, d :: b != binding ==> Opens(b, d) == old(Opens(b, d))
    {
      if binding !in references {
        references := references[binding := Named(digest)];
      } else {
        match references[binding]
        case Malformed => references := references[binding := Named(digest)];
        case Named(bound) =>
          if bound != digest {
            var existing := OpenContent(binding, bound);
            if existing.Opened? {
              assert references == old(references)[binding := Named(bound)];
              return existing;
            }
            references := references[binding := Named(digest)];
          }
      }
      outcome := OpenCached(binding);
    }

    /** `commit`. A content that is already referenced and still opens stays the winner; otherwise the
        staged content replaces it. Either way the binding opens afterwards, and other bindings are
        untouched. */
    method Commit(binding: Digest, bytes: seq<Byte>) returns (outcome: Outcome)
      requires Valid()
      modifies this
      ensures Valid()
      ensures !(0 < |bytes| <= MAX_SOLV_BYTES) ==>
                outcome == Failed(Corrupt) && contents == old(contents) && cookies == old(cookies) &&
                references == old(references)
      ensures 0 < |bytes| <= MAX_SOLV_BYTES ==>
                outcome.Opened? && HasWinner(binding) && Opens(binding, sha(bytes)) &&
                references == old(references)[binding := Named(outcome.handle.sha256)] &&
                outcome.handle.sha256 == (if old(HasWinner(binding)) then old(references[binding].sha256) else sha(bytes))
      ensures forall b, d :: b != binding ==> Opens(b, d) == old(Opens(b, d))
    {
      var inode := Stage(bytes);
      var ok, digest, size := HashFile(sha, inodes[inode].bytes);
      if !ok {
        return Failed(Corrupt);
      }
      var checked := LinkContent(binding, inode, digest, size);
      if !checked.Opened? || checked.handle.size != size {
        return Failed(Corrupt);
      }
      outcome := BindReference(binding, digest);
    }

    /** Over any sequence of commits to one binding, all of them return the first winner. */
    method CommitAll(binding: Digest, contents: seq<seq<Byte>>) returns (handles: seq<Handle>)
      requires Valid()
      requires forall i :: 0 <= i < |contents| ==> 0 < |contents[i]| <= MAX_SOLV_BYTES
      modifies this
      ensures Valid() && |handles| == |contents|
      ensures contents != [] ==>
                HasWinner(binding) &&
                var winner := if old(HasWinner(binding)) then old(references[binding].sha256) else sha(contents[0]);
                references[binding] == Named(winner) && forall i :: 0 <= i < |handles| ==> handles[i].sha256 == winner
    {
      handles := [];
      ghost var had := HasWinner(binding);
      ghost var first := if had then references[binding].sha256 else [];
      for i := 0 to |contents|
        invariant Valid() && |handles| == i
        invariant i == 0 ==> HasWinner(binding) == had && (had ==> references[binding].sha256 == first)
        invariant i > 0 ==>
                    HasWinner(binding) && references[binding] == Named(if had then first else sha(contents[0]))
        invariant forall k :: 0 <= k < i ==> handles[k].sha256 == if had then first else sha(contents[0])
      {
        var outcome := Commit(binding, contents[i]);
        handles := handles + [outcome.handle];
      }
    }
  }
}
