/** Files as named byte sequences, the system calls on them, and the copy loop. */
module Files {
  import opened Slices

  type Bytes = seq<bv8>
  type Store = map<string, Bytes>

  /** What one call to write does: it takes some of the bytes (none, some or all of them), it is
      interrupted by a signal, or it fails. */
  datatype WriteOutcome = Wrote(n: nat) | Interrupted | Failed

  /** What the system calls of one copy do: whether the two files can be opened, which reads succeed,
      what the writes do, and whether the destination is closed without an error. Calls
      behind the end of a list succeed in full. */
  datatype Faults = Faults(opens: bool, readable: seq<bool>, writes: seq<WriteOutcome>, closes: bool)

  /** Short and interrupted writes are no fault. */
  predicate Faultless(f: Faults) {
    f.opens && f.closes && false !in f.readable && Failed !in f.writes
  }

  /** The name of the copy that is kept beside a file. */
  function BackupName(name: string): (b: string)
    ensures b != name
  {
    name + ".bak"
  }

  /** The contents of a file after data is written at an offset. */
  function WrittenAt(before: Bytes, off: nat, data: Bytes): Bytes
    requires off <= |before|
  {
    before[..off] + data + if off + |data| <= |before| then before[off + |data|..] else []
  }

  function Min(a: int, b: int): int {
    if a <= b then a else b
  }

  function Rest<T>(s: seq<T>): seq<T> {
    if s == [] then [] else s[1..]
  }

  const CHUNK := 4096

  /** How a copy of so many bytes goes on when pos of them have been read and done written: the
      number that is written in the end, and whether the copy reports success. */
  function Progress(f: Faults, total: nat, pos: nat, done: nat): (r: (nat, bool))
    requires done <= pos <= total
    ensures done <= r.0 <= total && (r.1 ==> r.0 == total)
    decreases total - pos, |f.writes|, pos - done
  {
    if done == pos then
      if f.readable != [] && !f.readable[0] then (done, false)
      else if pos == total then (total, f.closes)
      else Progress(f.(readable := Rest(f.readable)), total, Min(total, pos + CHUNK), done)
    else if f.writes == [] then Progress(f, total, pos, pos)
    else match f.writes[0]
      case Wrote(k) => Progress(f.(writes := f.writes[1..]), total, pos, done + Min(k, pos - done))
      case Interrupted => Progress(f.(writes := f.writes[1..]), total, pos, done)
      case Failed => (done, false)
  }

  /** How many of so many bytes a copy hands over. */
  function BytesCopied(f: Faults, total: nat): (n: nat)
    ensures n <= total
  {
    Progress(f, total, 0, 0).0
  }

  /** Every pattern of short and interrupted writes that has no failure in it completes; then only
      closing the destination can still fail. */
  lemma {:induction false} FaultlessCompletes(f: Faults, total: nat, pos: nat, done: nat)
    requires done <= pos <= total && false !in f.readable && Failed !in f.writes
    ensures Progress(f, total, pos, done) == (total, f.closes)
    decreases total - pos, |f.writes|, pos - done
  {
    if done == pos {
      if pos < total {
        FaultlessCompletes(f.(readable := Rest(f.readable)), total, Min(total, pos + CHUNK), done);
      }
    } else if f.writes == [] {
      FaultlessCompletes(f, total, pos, pos);
    } else {
      assert f.writes[0] in f.writes;
      match f.writes[0] {
        case Wrote(k) => FaultlessCompletes(f.(writes := f.writes[1..]), total, pos, done + Min(k, pos - done));
        case Interrupted => FaultlessCompletes(f.(writes := f.writes[1..]), total, pos, done);
        case Failed => assert false;
      }
    }
  }

  class Disk {
    var files: Store
    ghost var history: seq<Store>  // the store after every call so far

    ghost predicate Valid()
      reads this
    {
      history != [] && history[|history| - 1] == files
    }

    constructor (files: Store)
      ensures Valid() && this.files == files
    {
      this.files := files;
      history := [files];
    }

    method Put(name: string, contents: Bytes)
      modifies this
      ensures Valid() && files == old(files)[name := contents]
      ensures history == old(history) + [files]
    {
      files := files[name := contents];
      history := history + [files];
    }

    /** open with O_CREAT, and O_TRUNC if asked for. */
    method Open(name: string, truncate: bool)
      modifies this
      ensures Valid() && files == old(files)[name := Opened(old(files), name, truncate)]
      ensures history == old(history) + [files]
    {
      Put(name, Opened(files, name, truncate));
    }

    method Write(name: string, off: nat, data: Bytes)
      requires name in files && off <= |files[name]|
      modifies this
      ensures Valid() && files == old(files)[name := WrittenAt(old(files[name]), off, data)]
      ensures history == old(history) + [files]
    {
      Put(name, WrittenAt(files[name], off, data));
    }

    method Append(name: string, data: Bytes)
      requires name in files
      modifies this
      ensures Valid() && files == old(files)[name := old(files[name]) + data]
      ensures history == old(history) + [files]
    {
      assert WrittenAt(files[name], |files[name]|, data) == files[name] + data;
      Write(name, |files[name]|, data);
    }

    method Unlink(name: string)
      modifies this
      ensures Valid() && files == old(files) - {name}
      ensures history == old(history) + [files]
    {
      files := files - {name};
      history := history + [files];
    }

    /** At most n bytes from an offset; fewer at the end of the file. */
    method Read(name: string, off: nat, n: nat) returns (b: Bytes)
      requires name in files && off <= |files[name]|
      ensures b == files[name][off..off + Min(n, |files[name]| - off)]
    {
      b := files[name][off..off + Min(n, |files[name]| - off)];
    }

    /** Copies in chunks through a buffer, and each chunk in as many writes as it takes. */
    method Cp(from: string, to: string, overwrite: bool, faults: Faults) returns (ok: bool)
      requires Valid()
      modifies this
      ensures Valid() && (ok, files) == CopyResult(old(files), from, to, overwrite, faults)
      ensures old(history) <= history
      ensures if from in old(files) && faults.opens then
                StagesOf(old(files), from, to, overwrite, history[|old(history)|..],
                         BytesCopied(faults, |Source(old(files), from, to, overwrite)|))
              else history == old(history)
    {
      hide Copied, Source, StagesOf, WrittenAt, Progress;
      if from !in files || !faults.opens {
        return false;
      }
      ghost var before, past := files, history;
      ghost var src := Source(files, from, to, overwrite);
      Open(to, overwrite);
      NothingCopied(before, from, to, overwrite);
      ghost var h := [files];
      var pos: nat, off: nat, left := 0, 0, faults;  // offsets of the two descriptors, outcomes ahead
      ok := true;
      while ok
        invariant Valid() && off <= pos <= |src| && (ok ==> pos == off)
        invariant if ok then Progress(left, |src|, pos, off) == Progress(faults, |src|, 0, 0)
                  else Progress(faults, |src|, 0, 0) == (off, false)
        invariant files == Copied(before, from, to, overwrite, off)
        invariant history == past + h && StagesOf(before, from, to, overwrite, h, off)
        decreases ok, |src| - pos
      {
        NextRead(left, |src|, pos);
        var canRead := left.readable == [] || left.readable[0];
        left := left.(readable := Rest(left.readable));
        if !canRead {
          ok := false;
        } else {
          SourceReadable(before, from, to, overwrite, off);
          var buf := Read(from, pos, CHUNK);
          if buf == [] {
            return left.closes;
          }
          pos := pos + |buf|;
          var written;
          ghost var more;
          ok, left, written, more := WriteAll(to, off, buf, left, before, from, overwrite, h);
          off := off + written;
          h := h + more;
        }
      }
    }

    /** Hands a chunk to write until all of it is taken. */
    method WriteAll(to: string, at: nat, buf: Bytes, faults: Faults,
                    ghost before: Store, ghost from: string, ghost overwrite: bool, ghost h: seq<Store>)
      returns (ok: bool, left: Faults, written: nat, ghost more: seq<Store>)
      requires Valid() && buf != []
      requires from in before && at + |buf| <= |Source(before, from, to, overwrite)|
      requires buf == Source(before, from, to, overwrite)[at..at + |buf|]
      requires files == Copied(before, from, to, overwrite, at)
      requires StagesOf(before, from, to, overwrite, h, at)
      modifies this
      ensures Valid() && written <= |buf| && (ok <==> written == |buf|)
      ensures var total, pos := |Source(before, from, to, overwrite)|, at + |buf|;
              Progress(faults, total, pos, at) == if ok then Progress(left, total, pos, pos) else (at + written, false)
      ensures files == Copied(before, from, to, overwrite, at + written)
      ensures history == old(history) + more && StagesOf(before, from, to, overwrite, h + more, at + written)
    {
      hide Copied, Source, StagesOf, WrittenAt, Progress;
      ghost var src := Source(before, from, to, overwrite);
      ghost var total, pos := |src|, at + |buf|;
      var nread: nat, outPtr: nat := |buf|, 0;
      left, written, more := faults, 0, [];
      assert h + more == h;
      while nread > 0
        invariant Valid() && outPtr + nread == |buf| && written == outPtr
        invariant Progress(left, total, pos, at + outPtr) == Progress(faults, total, pos, at)
        invariant files == Copied(before, from, to, overwrite, at + outPtr)
        invariant history == old(history) + more && StagesOf(before, from, to, overwrite, h + more, at + outPtr)
        decreases |left.writes| + nread
      {
        NextWrite(left, total, pos, at + outPtr);
        var outcome := NextOutcome(left, nread);
        left := left.(writes := Rest(left.writes));
        match outcome {
          case Wrote(k) =>
            var nwritten := Min(k, nread);
            CopiedFurther(before, from, to, overwrite, at + outPtr, nwritten);
            PartOfSlice(src, at, |buf|, outPtr, nwritten);
            Write(to, at + outPtr, buf[outPtr..outPtr + nwritten]);
            nread := nread - nwritten;
            outPtr := outPtr + nwritten;
            OneMoreStage(before, from, to, overwrite, h + more, at + outPtr - nwritten, at + outPtr);
            assert h + more + [files] == h + (more + [files]);
            written, more := outPtr, more + [files];
          case Interrupted =>
          case Failed =>
            return false, left, written, more;
        }
      }
      return true, left, written, more;
    }
  }

  // ----- One step of a copy -----

  lemma NextRead(f: Faults, total: nat, pos: nat)
    requires pos <= total
    ensures Progress(f, total, pos, pos)
         == if f.readable != [] && !f.readable[0] then (pos, false)
            else if pos == total then (total, f.closes)
            else Progress(f.(readable := Rest(f.readable)), total, Min(total, pos + CHUNK), pos)
  {}

  function NextOutcome(f: Faults, n: nat): WriteOutcome {
    if f.writes == [] then Wrote(n) else f.writes[0]
  }

  lemma NextWrite(f: Faults, total: nat, pos: nat, done: nat)
    requires done < pos <= total
    ensures match NextOutcome(f, pos - done)
            case Wrote(k) =>
              Progress(f, total, pos, done)
              == Progress(f.(writes := Rest(f.writes)), total, pos, done + Min(k, pos - done))
            case Interrupted =>
              Progress(f, total, pos, done) == Progress(f.(writes := Rest(f.writes)), total, pos, done)
            case Failed => Progress(f, total, pos, done) == (done, false)
  {
    assert f.writes == [] ==> f.(writes := []) == f;
  }

  function Opened(files: Store, name: string, truncate: bool): Bytes {
    if truncate || name !in files then [] else files[name]
  }

  /** The bytes a copy reads: a file copied onto itself is emptied first if it is overwritten. */
  function Source(files: Store, from: string, to: string, overwrite: bool): Bytes
    requires from in files
  {
    if from == to && overwrite then [] else files[from]
  }

  /** The store when n bytes have been copied. */
  function Copied(files: Store, from: string, to: string, overwrite: bool, n: nat): Store
    requires from in files && n <= |Source(files, from, to, overwrite)|
  {
    files[to := WrittenAt(Opened(files, to, overwrite), 0, Source(files, from, to, overwrite)[..n])]
  }

  /** What a copy reports and leaves: nothing happens without a source or if the destination cannot
      be opened. */
  function CopyResult(files: Store, from: string, to: string, overwrite: bool, f: Faults): (bool, Store) {
    if from !in files || !f.opens then (false, files)
    else
      var (n, ok) := Progress(f, |Source(files, from, to, overwrite)|, 0, 0);
      (ok, Copied(files, from, to, overwrite, n))
  }

  /** Every store on the way is one that some number of copied bytes leads to, up to m of them. */
  ghost predicate StagesOf(files: Store, from: string, to: string, overwrite: bool, h: seq<Store>, m: nat)
    requires from in files && m <= |Source(files, from, to, overwrite)|
  {
    forall i | 0 <= i < |h| :: exists n | 0 <= n <= m :: h[i] == Copied(files, from, to, overwrite, n)
  }

  lemma SourceReadable(files: Store, from: string, to: string, overwrite: bool, n: nat)
    requires from in files && n <= |Source(files, from, to, overwrite)|
    ensures from in Copied(files, from, to, overwrite, n)
    ensures Copied(files, from, to, overwrite, n)[from] == Source(files, from, to, overwrite)
  {}

  lemma NothingCopied(files: Store, from: string, to: string, overwrite: bool)
    requires from in files
    ensures files[to := Opened(files, to, overwrite)] == Copied(files, from, to, overwrite, 0)
    ensures StagesOf(files, from, to, overwrite, [Copied(files, from, to, overwrite, 0)], 0)
  {
    var base := Opened(files, to, overwrite);
    assert Source(files, from, to, overwrite)[..0] == [];
    assert WrittenAt(base, 0, []) == base;
  }

  lemma CopiedFurther(files: Store, from: string, to: string, overwrite: bool, n: nat, k: nat)
    requires from in files && n + k <= |Source(files, from, to, overwrite)|
    ensures var c, src := Copied(files, from, to, overwrite, n), Source(files, from, to, overwrite);
            && to in c && n <= |c[to]|
            && c[to := WrittenAt(c[to], n, src[n..n + k])] == Copied(files, from, to, overwrite, n + k)
  {
    var base, src := Opened(files, to, overwrite), Source(files, from, to, overwrite);
    var w := WrittenAt(base, 0, src[..n]);
    assert WrittenAt(w, n, src[n..n + k]) == WrittenAt(base, 0, src[..n + k]) by {
      assert w[..n] == src[..n];
      assert src[..n] + src[n..n + k] == src[..n + k];
    }
  }

  lemma OneMoreStage(files: Store, from: string, to: string, overwrite: bool, h: seq<Store>,
                     m: nat, n: nat)
    requires from in files && m <= n
    requires n <= |Source(files, from, to, overwrite)|
    requires StagesOf(files, from, to, overwrite, h, m)
    ensures StagesOf(files, from, to, overwrite, h + [Copied(files, from, to, overwrite, n)], n)
  {}

  lemma OverwritingCopy(files: Store, from: string, to: string, n: nat)
    requires from in files && from != to && n <= |files[from]|
    ensures Source(files, from, to, true) == files[from]
    ensures Copied(files, from, to, true, n) == files[to := files[from][..n]]
    ensures n == |files[from]| ==> Copied(files, from, to, true, n) == files[to := files[from]]
  {
    assert WrittenAt([], 0, files[from][..n]) == files[from][..n];
    assert files[from][..|files[from]|] == files[from];
  }

  /** Overwriting another file: what is copied is a beginning of the source, all of it if the copy
      reports success, and it does unless a call fails. */
  lemma OverwriteResult(files: Store, from: string, to: string, f: Faults)
    requires from in files && from != to
    ensures var (ok, s) := CopyResult(files, from, to, true, f);
            && (f.opens ==> s == files[to := files[from][..BytesCopied(f, |files[from]|)]])
            && (!f.opens ==> s == files)
            && (ok ==> s == files[to := files[from]])
            && (Faultless(f) ==> ok)
  {
    hide Progress, Copied, Source;
    if f.opens {
      OverwritingCopy(files, from, to, 0);
      OverwritingCopy(files, from, to, Progress(f, |files[from]|, 0, 0).0);
    }
    if Faultless(f) {
      FaultlessCompletes(f, |files[from]|, 0, 0);
    }
  }

  /** On the way there some beginning of the source is in the destination, as much as the copy has
      come to. */
  ghost predicate OverwriteStage(before: Store, from: string, to: string, f: Faults, s: Store) {
    && from in before && f.opens
    && exists n | 0 <= n <= BytesCopied(f, |before[from]|) :: s == before[to := before[from][..n]]
  }

  ghost predicate OverwriteStages(before: Store, from: string, to: string, f: Faults, h: seq<Store>) {
    forall i | 0 <= i < |h| :: OverwriteStage(before, from, to, f, h[i])
  }

  lemma StagesAreOverwriteStages(before: Store, from: string, to: string, f: Faults, h: seq<Store>)
    requires from in before && from != to
    requires if f.opens then StagesOf(before, from, to, true, h, BytesCopied(f, |Source(before, from, to, true)|))
             else h == []
    ensures OverwriteStages(before, from, to, f, h)
  {
    hide BytesCopied;
    forall i | 0 <= i < |h|
      ensures OverwriteStage(before, from, to, f, h[i])
    {
      var n :| 0 <= n <= BytesCopied(f, |Source(before, from, to, true)|)
               && h[i] == Copied(before, from, to, true, n);
      OverwritingCopy(before, from, to, n);
    }
  }

  /** A completed copy reproduces its source except where a longer file was not truncated, or where
      a file was truncated by being copied onto itself. */
  lemma CopyIsExactIf(files: Store, from: string, to: string, overwrite: bool)
    requires from in files
    ensures var n := |Source(files, from, to, overwrite)|;
            Copied(files, from, to, overwrite, n) == files[to := files[from]]
            <==> if overwrite then from != to || files[from] == []
                 else to in files ==> |files[to]| <= |files[from]|
  {
    var src, base := Source(files, from, to, overwrite), Opened(files, to, overwrite);
    var n := |src|;
    var c := Copied(files, from, to, overwrite, n);
    assert src[..n] == src;
    assert c == files[to := files[from]] <==> c[to] == files[from];
    if |base| > n {
      assert |c[to]| == |base|;
    } else {
      assert c[to] == src;
    }
  }

  // ----- Where a copy stops -----

  lemma {:induction false} StopsAtRead(f: Faults, total: nat, pos: nat, done: nat, k: nat)
    requires done <= pos <= total && Failed !in f.writes && (k == 0 || pos + 4096 * (k - 1) < total)
    requires k < |f.readable| && !f.readable[k] && forall i | 0 <= i < k :: f.readable[i]
    ensures Progress(f, total, pos, done)
         == (if pos + 4096 * k <= total then pos + 4096 * k else total, false)
    decreases total - pos, |f.writes|, pos - done
  {
    if done == pos {
      if k > 0 {
        StopsAtRead(f.(readable := f.readable[1..]), total, Min(total, pos + CHUNK), done, k - 1);
      }
    } else if f.writes == [] {
      StopsAtRead(f, total, pos, pos, k);
    } else {
      var w, g := f.writes[0], f.(writes := f.writes[1..]);
      assert w in f.writes;
      StopsAtRead(g, total, pos, if w.Wrote? then done + Min(w.n, pos - done) else done, k);
    }
  }

  /** A copy whose k-th read is the first call to fail leaves the k chunks read before, and says so. */
  lemma FailedReadExactly(files: Store, from: string, to: string, f: Faults, k: nat)
    requires from in files && from != to && f.opens && Failed !in f.writes
    requires k == 0 || 4096 * (k - 1) < |files[from]|
    requires k < |f.readable| && !f.readable[k] && forall i | 0 <= i < k :: f.readable[i]
    ensures var src := files[from];
            CopyResult(files, from, to, true, f)
            == (false, files[to := if 4096 * k <= |src| then src[..4096 * k] else src])
  {
    hide Progress, Copied, Source;
    var src := files[from];
    StopsAtRead(f, |src|, 0, 0, k);
    OverwritingCopy(files, from, to, if 4096 * k <= |src| then 4096 * k else |src|);
  }

  /** What a write of the bytes from done to the end of the chunk they are in comes to. */
  function After(w: WriteOutcome, total: nat, done: nat): (n: nat)
    requires done < total
  {
    var end := if (done / 4096 + 1) * 4096 <= total then (done / 4096 + 1) * 4096 else total;
    match w
    case Wrote(n) => if done + n <= end then done + n else end
    case _ => done
  }

  /** A chunk read up to pos has been written up to done. */
  predicate InChunk(done: nat, pos: nat, total: nat) {
    && done <= pos <= total
    && if done == pos then pos % 4096 == 0 || pos == total else pos == Min(total, (done / 4096 + 1) * 4096)
  }

  lemma {:induction false} StopsAtWrite(f: Faults, total: nat, pos: nat, at: seq<nat>)
    requires at != [] && |at| <= |f.writes| && f.writes[|at| - 1] == Failed && false !in f.readable
    requires InChunk(at[0], pos, total) && at[|at| - 1] < total
    requires forall i | 0 <= i < |at| - 1 :: at[i] < total && f.writes[i] != Failed
                                             && at[i + 1] == After(f.writes[i], total, at[i])
    ensures Progress(f, total, pos, at[0]) == (at[|at| - 1], false)
    decreases |at|, total - pos
  {
    if at[0] == pos {
      assert pos % 4096 == 0 && pos < total;
      assert Min(total, pos + CHUNK) == Min(total, (pos / 4096 + 1) * 4096);
      if f.readable != [] {
        assert f.readable[0] in f.readable;
      }
      StopsAtWrite(f.(readable := Rest(f.readable)), total, Min(total, pos + CHUNK), at);
    } else if |at| > 1 {
      assert at[1] == After(f.writes[0], total, at[0]);
      ChunkGoesOn(f.writes[0], total, pos, at[0]);
      StopsAtWrite(f.(writes := f.writes[1..]), total, pos, at[1..]);
    }
  }

  lemma ChunkGoesOn(w: WriteOutcome, total: nat, pos: nat, done: nat)
    requires done < pos && InChunk(done, pos, total)
    ensures var next := After(w, total, done);
            next == (if w.Wrote? then done + Min(w.n, pos - done) else done) && InChunk(next, pos, total)
  {}

  /** A copy whose m-th write is the first call to fail leaves what the writes before it have taken. at
      gives the bytes written before each of them. */
  lemma FailedWriteExactly(files: Store, from: string, to: string, f: Faults, at: seq<nat>)
    requires from in files && from != to && f.opens && false !in f.readable
    requires 0 < |at| <= |f.writes| && f.writes[|at| - 1] == Failed && at[0] == 0 && at[|at| - 1] < |files[from]|
    requires forall i | 0 <= i < |at| - 1 ::
               && at[i] < |files[from]| && !f.writes[i].Failed?
               && (f.writes[i].Interrupted? ==> at[i + 1] == at[i])
               && (f.writes[i].Wrote? ==>
                     var chunk, total := (at[i] / 4096 + 1) * 4096, |files[from]|;
                     var end := if chunk <= total then chunk else total;
                     at[i + 1] == if at[i] + f.writes[i].n <= end then at[i] + f.writes[i].n else end)
    ensures CopyResult(files, from, to, true, f) == (false, files[to := files[from][..at[|at| - 1]]])
  {
    hide Progress, Copied, Source;
    forall i | 0 <= i < |at| - 1
      ensures f.writes[i] != Failed && at[i + 1] == After(f.writes[i], |files[from]|, at[i])
    {}
    StopsAtWrite(f, |files[from]|, 0, at);
    OverwritingCopy(files, from, to, at[|at| - 1]);
  }

  /** Where only closing the destination fails, all of it is there, and the copy says that it is not. */
  lemma FailedClose(files: Store, from: string, to: string, f: Faults)
    requires from in files && from != to && f.opens && !f.closes && false !in f.readable && Failed !in f.writes
    ensures CopyResult(files, from, to, true, f) == (false, files[to := files[from]])
  {
    hide Progress, Copied, Source;
    FaultlessCompletes(f, |files[from]|, 0, 0);
    OverwritingCopy(files, from, to, |files[from]|);
  }
}
