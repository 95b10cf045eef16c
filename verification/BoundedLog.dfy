/** The log file that is kept below a maximum size by dropping its oldest bytes. */
module BoundedLog {
  import opened Files

  method WriteData(disk: Disk, name: string, data: Bytes, append: bool) returns (r: int)
    requires disk.Valid()
    modifies disk
    ensures disk.Valid() && r == 0
    ensures var before := if append && name in old(disk.files) then old(disk.files[name]) else [];
            && disk.files == old(disk.files)[name := before + data]
            && disk.history == old(disk.history) + [old(disk.files)[name := before], disk.files]
  {
    disk.Open(name, !append);
    disk.Append(name, data);
    return 0;
  }

  function Max(a: int, b: int): int {
    if a <= b then b else a
  }

  /** What can be read from an offset on, which may lie behind the end. */
  function From(contents: Bytes, start: nat): (k: Bytes)
    ensures |k| <= |contents| && k == contents[|contents| - |k|..]
  {
    if start <= |contents| then contents[start..] else []
  }

  /** What is left of the old contents to make room for the new data. */
  function Kept(contents: Bytes, n: nat, max: int): (k: Bytes)
    ensures |k| <= |contents| && k == contents[|contents| - |k|..]
  {
    From(contents, Max(0, n + |contents| - max))
  }

  /** The log behind an append. */
  function NewLog(contents: Bytes, data: Bytes, max: int): Bytes {
    Kept(contents, |data|, max) + data
  }

  /** A store on the way of writing the new log: some of it is there, or all of it and the scratch
      file is gone. */
  ghost predicate WriteStage(base: Store, name: string, log: Bytes, s: Store) {
    || (exists m | 0 <= m <= |log| :: s == base[name := log[..m]])
    || s == (base - {BackupName(name)})[name := log]
  }

  ghost predicate WriteStages(base: Store, name: string, log: Bytes, h: seq<Store>) {
    forall i | 0 <= i < |h| :: WriteStage(base, name, log, h[i])
  }

  /** A store on the way of an append whose scratch copy goes as f says. */
  ghost predicate AppendStage(before: Store, name: string, data: Bytes, max: int, f: Faults, s: Store) {
    var tmp, copied := BackupName(name), CopyResult(before, name, BackupName(name), true, f).1;
    if name !in before then WriteStage(before, name, data, s)
    else
      || OverwriteStage(before, name, tmp, f, s)
      || (tmp in copied && WriteStage(copied, name, NewLog(copied[tmp], data, max), s))
  }

  ghost predicate AppendStages(before: Store, name: string, data: Bytes, max: int, f: Faults, h: seq<Store>) {
    forall i | 0 <= i < |h| :: AppendStage(before, name, data, max, f, h[i])
  }

  /** The scratch copy is made without looking at its result: what is kept comes from whatever is in
      the scratch file then. (Where there is none, the code closes a null stream.) */
  method WriteDataMaxsize(disk: Disk, name: string, data: Bytes, max: int, faults: Faults) returns (r: int)
    requires disk.Valid()
    requires name in disk.files ==> faults.opens || BackupName(name) in disk.files
    modifies disk
    ensures disk.Valid() && r == 0
    ensures name !in old(disk.files) ==> disk.files == old(disk.files)[name := data]
    ensures name in old(disk.files) ==>
        var copied := CopyResult(old(disk.files), name, BackupName(name), true, faults).1;
        && BackupName(name) in copied
        && disk.files == (copied - {BackupName(name)})[name := NewLog(copied[BackupName(name)], data, max)]
    ensures name in old(disk.files) && faults.opens && faults.closes
            && false !in faults.readable && Failed !in faults.writes ==>
        var o := old(disk.files[name]);
        var start := |data| + |o| - max;
        && name in disk.files
        && disk.files[name] == (if start <= 0 then o else if start <= |o| then o[start..] else []) + data
        && name + ".bak" !in disk.files
    ensures forall other | other != name && other != name + ".bak" ::
              && (other in disk.files <==> other in old(disk.files))
              && (other in disk.files ==> disk.files[other] == old(disk.files)[other])
    ensures old(disk.history) <= disk.history
    ensures AppendStages(old(disk.files), name, data, max, faults, disk.history[|old(disk.history)|..])
  {
    hide CopyResult, StagesOf, BackupName, NewLog, WriteStages, AppendStages, OverwriteStages;
    ghost var before, past := disk.files, |disk.history|;
    if name !in disk.files {
      r := WriteData(disk, name, data, false);
      assert [] + data == data;
      FirstAppend(before, name, data, max, faults, disk.history[past..]);
      return;
    }
    var tmp := BackupName(name);
    OverwriteResult(disk.files, name, tmp, faults);
    NewLogIs(before[name], data, max);
    NameOfScratch(name);
    var _ := disk.Cp(name, tmp, true, faults);
    ghost var copied, h := disk.files, disk.history[past..];
    StagesAreOverwriteStages(before, name, tmp, faults, h);
    ghost var mid := |disk.history|;
    disk.Open(name, true);
    WriteBehindTail(disk, name, data, max);
    ghost var log := NewLog(copied[tmp], data, max);
    OnceWritten(copied, name, tmp, log);
    EmptiedFirst(copied, name, log, disk.history[mid + 1..]);
    assert disk.history[mid..] == [copied[name := []]] + disk.history[mid + 1..];
    assert disk.history[past..] == h + disk.history[mid..];
    AllAppendStages(before, name, data, max, faults, h, disk.history[mid..]);
    return 0;
  }

  lemma NewLogIs(o: Bytes, data: Bytes, max: int)
    ensures var start := |data| + |o| - max;
            NewLog(o, data, max) == (if start <= 0 then o else if start <= |o| then o[start..] else []) + data
  {}

  lemma NameOfScratch(name: string)
    ensures BackupName(name) == name + ".bak"
  {}

  lemma FirstAppend(before: Store, name: string, data: Bytes, max: int, f: Faults, h: seq<Store>)
    requires name !in before && h == [before[name := []], before[name := data]]
    ensures AppendStages(before, name, data, max, f, h)
  {
    hide CopyResult;
    assert data[..0] == [] && data[..|data|] == data;
    assert WriteStage(before, name, data, h[0]) && WriteStage(before, name, data, h[1]);
  }

  lemma AllAppendStages(before: Store, name: string, data: Bytes, max: int, f: Faults, h: seq<Store>, more: seq<Store>)
    requires name in before && OverwriteStages(before, name, BackupName(name), f, h)
    requires var copied := CopyResult(before, name, BackupName(name), true, f).1;
             && BackupName(name) in copied
             && WriteStages(copied, name, NewLog(copied[BackupName(name)], data, max), more)
    ensures AppendStages(before, name, data, max, f, h + more)
  {
    hide CopyResult, OverwriteStage, WriteStage, NewLog;
  }

  /** Emptying the log is the first step of writing it. */
  lemma EmptiedFirst(base: Store, name: string, log: Bytes, h: seq<Store>)
    requires WriteStages(base[name := []], name, log, h)
    ensures WriteStages(base, name, log, [base[name := []]] + h)
  {
    hide BackupName;
    var emptied := base[name := []];
    assert log[..0] == [];
    assert WriteStage(base, name, log, emptied);
    forall i | 0 <= i < |h|
      ensures WriteStage(base, name, log, h[i])
    {
      if m: nat :| m <= |log| && h[i] == emptied[name := log[..m]] {
        assert h[i] == base[name := log[..m]];
      } else {
        OnceWritten(base, name, BackupName(name), log);
      }
    }
    hide WriteStage;
  }

  /** From the scratch copy back into the truncated log, the new data behind, the scratch file away. */
  method WriteBehindTail(disk: Disk, name: string, data: Bytes, max: int)
    requires disk.Valid()
    requires BackupName(name) in disk.files && name in disk.files && disk.files[name] == []
    modifies disk
    ensures disk.Valid()
    ensures var log := NewLog(old(disk.files[BackupName(name)]), data, max);
            && disk.files == (old(disk.files) - {BackupName(name)})[name := log]
            && old(disk.history) <= disk.history
            && WriteStages(old(disk.files), name, log, disk.history[|old(disk.history)|..])
  {
    hide From, BackupName;
    var tmp := BackupName(name);
    ghost var files, contents, past := disk.files, disk.files[tmp], |disk.history|;
    var fileSize := |disk.files[tmp]|;
    var startOffset: nat := 0;
    if |data| + fileSize > max {
      startOffset := |data| + fileSize - max;
    }
    CopyTail(disk, tmp, name, startOffset);
    ghost var h := disk.history[past..];
    disk.Append(name, data);
    assert disk.files == files[name := NewLog(contents, data, max)];
    disk.Unlink(tmp);
    ScratchFileGone(files, name, tmp, Kept(contents, |data|, max), data);
    LastStages(files, name, Kept(contents, |data|, max), data, h);
    assert disk.history[past..] == h + [files[name := NewLog(contents, data, max)], disk.files];
  }

  lemma LastStages(files: Store, name: string, kept: Bytes, data: Bytes, h: seq<Store>)
    requires forall i | 0 <= i < |h| :: exists m | 0 <= m <= |kept| :: h[i] == files[name := kept[..m]]
    ensures WriteStages(files, name, kept + data,
                        h + [files[name := kept + data], (files - {BackupName(name)})[name := kept + data]])
  {
    var log := kept + data;
    hide BackupName;
    assert log[..|log|] == log;
    assert WriteStage(files, name, log, files[name := log]);
    forall i | 0 <= i < |h|
      ensures WriteStage(files, name, log, h[i])
    {
      var m: nat :| m <= |kept| && h[i] == files[name := kept[..m]];
      assert log[..m] == kept[..m];
    }
    hide WriteStage;
  }

  lemma OnceWritten(files: Store, name: string, tmp: string, contents: Bytes)
    requires name != tmp
    ensures (files[name := []] - {tmp})[name := contents] == (files - {tmp})[name := contents]
  {}

  lemma ScratchFileGone(files: Store, name: string, tmp: string, kept: Bytes, data: Bytes)
    requires name != tmp
    ensures files[name := kept][name := kept + data] - {tmp} == (files - {tmp})[name := kept + data]
  {}

  /** The reading loop: everything from an offset on, in pieces of 1024 bytes. */
  method CopyTail(disk: Disk, from: string, to: string, start: nat)
    requires disk.Valid() && from != to
    requires from in disk.files && to in disk.files && disk.files[to] == []
    modifies disk
    ensures disk.Valid()
    ensures disk.files == old(disk.files)[to := From(old(disk.files[from]), start)]
    ensures old(disk.history) <= disk.history
    ensures var tail := From(old(disk.files[from]), start);
            forall i | |old(disk.history)| <= i < |disk.history| ::
              exists m | 0 <= m <= |tail| :: disk.history[i] == old(disk.files)[to := tail[..m]]
  {
    ghost var before, contents, past := disk.files, disk.files[from], disk.history;
    ghost var tail := From(contents, start);
    assert before == before[to := tail[..0]];
    var pos := start;
    while pos < |disk.files[from]|
      invariant disk.Valid() && start <= pos && pos - start <= |tail|
      invariant from in disk.files && disk.files[from] == contents
      invariant disk.files == before[to := tail[..pos - start]]
      invariant past <= disk.history
      invariant forall i | |past| <= i < |disk.history| ::
          exists m | 0 <= m <= |tail| :: disk.history[i] == before[to := tail[..m]]
      decreases |contents| - pos
    {
      var readBuff := disk.Read(from, pos, 1024);
      assert tail[..pos - start] + readBuff == tail[..pos + |readBuff| - start];
      disk.Append(to, readBuff);
      pos := pos + |readBuff|;
    }
    assert tail[..pos - start] == tail;
  }

  // ----- An append that is interrupted -----

  /** The log before the append is whole, in its file or in the scratch file, or the new one is in its
      place. */
  predicate OldOrNew(before: Store, name: string, data: Bytes, max: int, s: Store)
    requires name in before
  {
    || (name in s && (s[name] == before[name] || s[name] == NewLog(before[name], data, max)))
    || (BackupName(name) in s && s[BackupName(name)] == before[name])
  }

  /** Whether the scratch file holds the whole log when the log is emptied. */
  predicate CopyWhole(before: Store, name: string, f: Faults)
    requires name in before
  {
    if f.opens then BytesCopied(f, |before[name]|) == |before[name]|
    else BackupName(name) in before && before[BackupName(name)] == before[name]
  }

  lemma WholeExactlyIf(before: Store, name: string, f: Faults)
    requires name in before && (f.opens || BackupName(name) in before)
    ensures var copied := CopyResult(before, name, BackupName(name), true, f).1;
            && BackupName(name) in copied
            && (copied[BackupName(name)] == before[name] <==> CopyWhole(before, name, f))
  {
    hide CopyResult, BytesCopied, BackupName;
    OverwriteResult(before, name, BackupName(name), f);
    var n := BytesCopied(f, |before[name]|);
    assert n == |before[name]| ==> before[name][..n] == before[name];
    assert |before[name][..n]| == n;
  }

  /** Wherever an append is cut off, and whatever fails in its scratch copy, the old log or the new one
      is left exactly if the scratch copy is whole. (An empty log cannot be lost.) */
  lemma OldOrNewExactlyIf(before: Store, name: string, data: Bytes, max: int, f: Faults)
    requires name in before && (f.opens || BackupName(name) in before)
    requires before[name] != [] && NewLog(before[name], data, max) != []
    ensures (forall s | AppendStage(before, name, data, max, f, s) :: OldOrNew(before, name, data, max, s))
            <==> CopyWhole(before, name, f)
  {
    hide CopyResult, BytesCopied, BackupName, CopyWhole, NewLog;
    WholeExactlyIf(before, name, f);
    var tmp, copied := BackupName(name), CopyResult(before, name, BackupName(name), true, f).1;
    var log, emptied := NewLog(copied[tmp], data, max), copied[name := []];
    assert log[..0] == [];
    assert WriteStage(copied, name, log, emptied);
    assert AppendStage(before, name, data, max, f, emptied);
    if copied[tmp] == before[name] {
      forall s | AppendStage(before, name, data, max, f, s)
        ensures OldOrNew(before, name, data, max, s)
      {}
    } else {
      assert !OldOrNew(before, name, data, max, emptied);
    }
  }

  /** The append after one that was cut off copies what is left in the log over the scratch file. Where
      the log was left shorter than it had been, the whole copy is gone as soon as that begins. */
  lemma NextAppendLosesCopy(before: Store, name: string, data: Bytes, max: int, f: Faults, s: Store,
                            next: Bytes, g: Faults)
    requires name in before && AppendStage(before, name, data, max, f, s)
    requires name in s && |s[name]| < |before[name]| && g.opens
    ensures exists t :: AppendStage(s, name, next, max, g, t) && name in t && BackupName(name) in t
                        && t[name] != before[name] && t[BackupName(name)] != before[name]
    ensures Faultless(g) ==>
        CopyResult(s, name, BackupName(name), true, g).1 == s[BackupName(name) := s[name]]
  {
    hide CopyResult, BytesCopied, BackupName, NewLog, WriteStage;
    OverwriteResult(s, name, BackupName(name), g);
    var t := s[BackupName(name) := s[name][..0]];
    assert OverwriteStage(s, name, BackupName(name), g, t);
    assert AppendStage(s, name, next, max, g, t);
  }

  // ----- A run of appends, starting without a file -----

  function History(appends: seq<Bytes>): Bytes {
    if appends == [] then [] else History(appends[..|appends| - 1]) + appends[|appends| - 1]
  }

  /** The log after the appends; the first one finds no file and is written as it is. */
  function Log(appends: seq<Bytes>, max: int): Bytes {
    if appends == [] then []
    else
      var data := appends[|appends| - 1];
      (if |appends| == 1 then [] else Kept(Log(appends[..|appends| - 1], max), |data|, max)) + data
  }

  predicate IsEnd(l: Bytes, h: Bytes) {
    |l| <= |h| && l == h[|h| - |l|..]
  }

  lemma EndOf(gone: Bytes, l: Bytes)
    ensures IsEnd(l, gone + l)
  {}

  /** How much is kept: all of it while there is room, and never less than there is room for. */
  lemma KeptLength(l: Bytes, n: nat, max: int)
    ensures var k, room := Kept(l, n, max), Max(0, max);
            if n > room then k == [] else |k| == Min(|l|, room - n)
  {}

  lemma KeptIsEnd(h: Bytes, l: Bytes, data: Bytes, max: int)
    requires IsEnd(l, h)
    ensures IsEnd(Kept(l, |data|, max) + data, h + data)
  {
    var k := Kept(l, |data|, max);
    hide Kept;
    EndOfEnd(h, l, k);
    var gone := h[..|h| - |k|];
    assert h + data == gone + (k + data);
    EndOf(gone, k + data);
    hide IsEnd;
  }

  lemma EndOfEnd(h: Bytes, l: Bytes, k: Bytes)
    requires IsEnd(l, h) && IsEnd(k, l)
    ensures |k| <= |h| && h == h[..|h| - |k|] + k
  {}

  lemma OneAppend(h: Bytes, l: Bytes, data: Bytes, max: int)
    requires IsEnd(l, h) && |l| >= Min(|h|, Max(0, max))
    ensures var next, room := Kept(l, |data|, max) + data, Max(0, max);
            && IsEnd(next, h + data)
            && (if |data| > room then next == data else |next| == Min(|h + data|, room))
  {
    ShorterEnd(l, h);
    hide IsEnd, Kept;
    KeptIsEnd(h, l, data, max);
    KeptLength(l, |data|, max);
    var k := Kept(l, |data|, max);
    if |data| > Max(0, max) {
      assert [] + data == data;
    } else {
      assert |k + data| == |k| + |data| && |h + data| == |h| + |data|;
    }
  }

  lemma ShorterEnd(l: Bytes, h: Bytes)
    requires IsEnd(l, h)
    ensures |l| <= |h|
  {}

  /** The log is always the end of the history, and never shorter than it may be. */
  lemma {:induction false} LogIsSuffix(appends: seq<Bytes>, max: int)
    ensures var h, l := History(appends), Log(appends, max);
            && IsEnd(l, h) && |l| >= Min(|h|, Max(0, max))
            && (appends != [] ==>
                  if |appends[|appends| - 1]| > Max(0, max) then l == appends[|appends| - 1]
                  else |l| == Min(|h|, Max(0, max)))
  {
    hide Kept, IsEnd;
    if appends == [] {
      EmptyIsEnd([]);
    } else {
      var n := |appends| - 1;
      LogIsSuffix(appends[..n], max);
      OneAppend(History(appends[..n]), Log(appends[..n], max), appends[n], max);
      if n == 0 {
        EmptyIsEnd(appends[0]);
        assert [] + appends[0] == appends[0];
      }
    }
  }

  lemma EmptyIsEnd(data: Bytes)
    ensures IsEnd([], []) && IsEnd(data, data)
  {}

  /** After any run of appends the file holds exactly the last bytes of the history, as many as the
      maximum allows, if and only if the last append was not itself longer than the maximum. */
  lemma LogIsLastBytesExactlyIf(appends: seq<Bytes>, max: int)
    requires appends != []
    ensures var h := History(appends);
            var n := Min(|h|, Max(0, max));
            Log(appends, max) == h[|h| - n..] <==> |appends[|appends| - 1]| <= Max(0, max)
  {
    LogIsSuffix(appends, max);
  }

  lemma OneMoreAppend(appends: seq<Bytes>, max: int, i: nat)
    requires i < |appends|
    ensures Log(appends[..i + 1], max)
         == if i == 0 then appends[0] else Kept(Log(appends[..i], max), |appends[i]|, max) + appends[i]
  {
    assert appends[..i + 1][..i] == appends[..i];
  }

  /** The same run on a disk, with other short and interrupted writes in every append. A scratch file
      that was left behind is gone after the second one. */
  method AppendAll(disk: Disk, name: string, appends: seq<Bytes>, max: int, faults: seq<Faults>)
    requires disk.Valid() && name !in disk.files
    requires |faults| == |appends| && forall i | 0 <= i < |faults| :: Faultless(faults[i])
    modifies disk
    ensures disk.Valid()
    ensures disk.files == AfterAppends(old(disk.files), name, appends, max)
    ensures appends != [] ==>
        var h, last, room := History(appends), appends[|appends| - 1], if max > 0 then max else 0;
        && name in disk.files
        && disk.files[name] == if |last| > room then last else if |h| <= room then h else h[|h| - room..]
    ensures |appends| >= 2 ==> name + ".bak" !in disk.files
    ensures forall other | other != name && other != name + ".bak" ::
              && (other in disk.files <==> other in old(disk.files))
              && (other in disk.files ==> disk.files[other] == old(disk.files)[other])
  {
    hide Log, Kept, CopyResult;
    NameOfScratch(name);
    LogIsSuffix(appends, max);
    var i := 0;
    ghost var before := disk.files;
    while i < |appends|
      invariant 0 <= i <= |appends| && disk.Valid()
      invariant disk.files == AfterAppends(before, name, appends[..i], max)
    {
      OneMoreAppend(appends, max, i);
      assert Faultless(faults[i]);
      if i > 0 {
        OverwriteResult(disk.files, name, BackupName(name), faults[i]);
        WithoutBackup(before, name, Log(appends[..i], max), Log(appends[..i + 1], max), i > 1);
      }
      var _ := WriteDataMaxsize(disk, name, appends[i], max, faults[i]);
      i := i + 1;
    }
    assert appends[..|appends|] == appends;
  }

  function AfterAppends(files: Store, name: string, appends: seq<Bytes>, max: int): Store {
    if appends == [] then files
    else (if |appends| == 1 then files else files - {BackupName(name)})[name := Log(appends, max)]
  }

  lemma WithoutBackup(files: Store, name: string, x: Bytes, y: Bytes, gone: bool)
    ensures var bak := BackupName(name);
            var s := (if gone then files - {bak} else files)[name := x];
            (s[bak := x] - {bak})[name := y] == (files - {bak})[name := y]
  {}
}
