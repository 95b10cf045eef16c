/** The CRC-protected store that keeps two copies: save, backup, load and recovery. */
module Storage {
  import opened Crc16
  import opened CrcBitErrors
  import opened CrcTheory
  import opened Files
  import Gf256

  datatype LoadError = FileNotExist | FileOpen | FileRead | DataCrc

  datatype LoadResult = Loaded(data: Bytes) | Error(error: LoadError)

  function Code(r: LoadResult): int {
    match r
    case Loaded(_) => 0
    case Error(FileNotExist) => -1
    case Error(FileOpen) => -2
    case Error(FileRead) => -4
    case Error(DataCrc) => -5
  }

  /** The two bytes of a CRC as they lie in memory. */
  function CrcBytes(crc: bv16, bigEndian: bool): (b: Bytes)
    ensures |b| == 2
  {
    if bigEndian then [HighByte(crc), LowByte(crc)] else [LowByte(crc), HighByte(crc)]
  }

  function Record(payload: Bytes, bigEndian: bool): Bytes {
    payload + CrcBytes(Crc(payload), bigEndian)
  }

  /** Whether the first bytes of a file are a payload of n bytes with its CRC. */
  predicate Intact(file: Bytes, n: nat, bigEndian: bool) {
    n + 2 <= |file| && file[n..n + 2] == CrcBytes(Crc(file[..n]), bigEndian)
  }

  /** The attempts to read a file that fail, counted from 1: those that cannot open it, and those whose
      read gives less than was asked for although the file is long enough. */
  datatype Attempts = Attempts(unopened: set<nat>, unread: set<nat>)

  predicate GetsThrough(t: Attempts, k: nat) {
    k !in t.unopened && k !in t.unread
  }

  /** Whether a reading gets to a long enough file in time: the third attempt comes too late. */
  predicate InTime(t: Attempts) {
    GetsThrough(t, 1) || GetsThrough(t, 2)
  }

  /** What the k-th attempt reports if it fails. */
  function ErrorOf(files: Store, name: string, t: Attempts, k: nat): LoadError {
    if name !in files || k in t.unopened then FileOpen else FileRead
  }

  /** One reading of the file. The error is that of the last attempt that failed. */
  function LoadFrom(files: Store, name: string, n: nat, bigEndian: bool, t: Attempts): LoadResult {
    var long := name in files && |files[name]| >= n + 2;
    if long && InTime(t) then
      if Intact(files[name], n, bigEndian) then Loaded(files[name][..n]) else Error(DataCrc)
    else Error(ErrorOf(files, name, t, if long && GetsThrough(t, 3) then 2 else 3))
  }

  /** Copies the backup over the file, if there is one. */
  function Recovered(files: Store, name: string): Store {
    if BackupName(name) in files then files[name := files[BackupName(name)]] else files
  }

  function BackedUp(files: Store, name: string): Store {
    if name in files then files[BackupName(name) := files[name]] else files
  }

  function Saved(files: Store, name: string, payload: Bytes, bigEndian: bool): Store {
    BackedUp(files, name)[name := Record(payload, bigEndian)]
  }

  /** What a load gives and what it leaves, when no call fails during a recovery. */
  function Load(files: Store, name: string, n: nat, bigEndian: bool, f1: Attempts, f2: Attempts): (LoadResult, Store) {
    if name !in files && BackupName(name) !in files then (Error(FileNotExist), files)
    else
      var found := if name in files then files else Recovered(files, name);
      var first := LoadFrom(found, name, n, bigEndian, f1);
      if first == Error(DataCrc) && BackupName(name) in files then
        (LoadFrom(Recovered(found, name), name, n, bigEndian, f2), Recovered(found, name))
      else (first, found)
  }

  // ----- The same, whatever fails -----

  function RecoveryResult(files: Store, name: string, f: Faults): (bool, Store) {
    CopyResult(files, BackupName(name), name, true, f)
  }

  function BackupResult(files: Store, name: string, f: Faults): Store {
    if name in files then CopyResult(files, name, BackupName(name), true, f).1 else files
  }

  /** How many of n bytes one call to write takes. */
  function Taken(w: WriteOutcome, n: nat): (t: nat)
    ensures t <= n
  {
    match w
    case Wrote(k) => Min(k, n)
    case Interrupted => 0
    case Failed => 0
  }

  /** The file when so many bytes of the payload and of the CRC have been written. */
  function Partial(payload: Bytes, bigEndian: bool, a: nat, b: nat): (p: Bytes)
    requires a <= |payload| && b <= 2
    ensures |p| == a + b
  {
    payload[..a] + CrcBytes(Crc(payload), bigEndian)[..b]
  }

  /** A save: the results of its two writes are not looked at. */
  function SaveResult(files: Store, name: string, payload: Bytes, bigEndian: bool,
                      f: Faults, opens: bool, w1: WriteOutcome, w2: WriteOutcome): (int, Store) {
    var backed := BackupResult(files, name, f);
    if !opens then (-2, backed)
    else (0, backed[name := Partial(payload, bigEndian, Taken(w1, |payload|), Taken(w2, 2))])
  }

  /** A load once there is a file. */
  function FoundOutcome(found: Store, name: string, n: nat, bigEndian: bool,
                        f1: Attempts, f2: Attempts, c2: Faults): (LoadResult, Store) {
    var first := LoadFrom(found, name, n, bigEndian, f1);
    var (again, store) := RecoveryResult(found, name, c2);
    if first != Error(DataCrc) then (first, found)
    else if again then (LoadFrom(store, name, n, bigEndian, f2), store)
    else (first, store)
  }

  function LoadOutcome(files: Store, name: string, n: nat, bigEndian: bool,
                       f1: Attempts, f2: Attempts, c1: Faults, c2: Faults): (LoadResult, Store) {
    var (present, found) := if name in files then (true, files) else RecoveryResult(files, name, c1);
    if !present then (Error(FileNotExist), found) else FoundOutcome(found, name, n, bigEndian, f1, f2, c2)
  }

  /** Without a failing call these are the functions above. */
  lemma FaultlessResults(files: Store, name: string, f: Faults)
    requires Faultless(f)
    ensures BackupResult(files, name, f) == BackedUp(files, name)
    ensures RecoveryResult(files, name, f) == (BackupName(name) in files, Recovered(files, name))
  {
    hide CopyResult;
    if name in files {
      OverwriteResult(files, name, BackupName(name), f);
    }
    if BackupName(name) in files {
      OverwriteResult(files, BackupName(name), name, f);
    } else {
      NoSource(files, BackupName(name), name, f);
    }
  }

  lemma NoSource(files: Store, from: string, to: string, f: Faults)
    requires from !in files
    ensures CopyResult(files, from, to, true, f) == (false, files)
  {}

  lemma FaultlessLoad(files: Store, name: string, n: nat, bigEndian: bool,
                      f1: Attempts, f2: Attempts, c1: Faults, c2: Faults)
    requires Faultless(c1) && Faultless(c2)
    ensures LoadOutcome(files, name, n, bigEndian, f1, f2, c1, c2) == Load(files, name, n, bigEndian, f1, f2)
  {
    hide RecoveryResult, LoadFrom;
    var found := if name in files then files else Recovered(files, name);
    FaultlessResults(files, name, c1);
    FaultlessResults(found, name, c2);
  }

  lemma WholePartial(payload: Bytes, bigEndian: bool)
    ensures Partial(payload, bigEndian, |payload|, 2) == Record(payload, bigEndian)
  {
    hide Crc, CrcBytes;
    var c := CrcBytes(Crc(payload), bigEndian);
    assert payload[..|payload|] == payload && c[..2] == c;
  }

  lemma FaultlessSave(files: Store, name: string, payload: Bytes, bigEndian: bool,
                      f: Faults, w1: WriteOutcome, w2: WriteOutcome)
    requires Faultless(f) && Taken(w1, |payload|) == |payload| && Taken(w2, 2) == 2
    ensures SaveResult(files, name, payload, bigEndian, f, true, w1, w2)
         == (0, Saved(files, name, payload, bigEndian))
  {
    hide BackupResult, Partial, Record, Taken;
    FaultlessResults(files, name, f);
    WholePartial(payload, bigEndian);
  }

  /** What a load leaves in the caller's buffer: cleared before reading, untouched if there is no
      file at all. */
  function Delivered(r: LoadResult, before: Bytes): (d: Bytes) {
    match r
    case Loaded(data) => data
    case Error(FileNotExist) => before
    case Error(_) => seq(|before|, _ => 0)
  }

  /** One reading: zero exactly if the file is long enough and intact and one of the first two attempts
      gets through to it. */
  method LoadFile(disk: Disk, name: string, pdata: array<bv8>, length: nat, bigEndian: bool, t: Attempts)
    returns (r: int)
    requires length <= pdata.Length
    modifies pdata
    ensures r == 0 <==> name in disk.files && InTime(t) && Intact(disk.files[name], length, bigEndian)
    ensures var result := LoadFrom(disk.files, name, length, bigEndian, t);
            && r == Code(result)
            && pdata[..length] == Delivered(result, old(pdata[..length]))
            && pdata[length..] == old(pdata[length..])
    ensures r == 0 ==> |disk.files[name]| >= length + 2 && pdata[..length] == disk.files[name][..length]
    ensures r != 0 ==> forall i | 0 <= i < length :: pdata[i] == 0
    ensures var result := LoadFrom(disk.files, name, length, bigEndian, t);
            && (r == 0 <==> result.Loaded?) && (r == -2 <==> result == Error(FileOpen))
            && (r == -4 <==> result == Error(FileRead)) && (r == -5 <==> result == Error(DataCrc))
  {
    hide Crc, CrcBytes;
    ReadingSucceedsExactlyIf(disk.files, name, length, bigEndian, t);
    ghost var long := name in disk.files && |disk.files[name]| >= length + 2;
    forall i | 0 <= i < length {
      pdata[i] := 0;
    }
    r := 0;
    var retry, pbuf := 0, [];
    while true
      invariant 0 <= retry <= 3
      invariant pdata[..length] == seq(length, _ => 0) && pdata[length..] == old(pdata[length..])
      invariant forall k: nat | 1 <= k <= retry :: !(long && GetsThrough(t, k))
      invariant retry > 0 ==> r == Code(Error(ErrorOf(disk.files, name, t, retry)))
      decreases 4 - retry
    {
      var again := retry < 3;
      retry := retry + 1;
      if !again {
        break;
      }
      if name !in disk.files || retry in t.unopened {
        r := -2;
        continue;
      }
      pbuf := disk.Read(name, 0, length + 2);
      if |pbuf| == length + 2 && retry !in t.unread {
        break;
      }
      r := -4;
    }
    if retry >= 3 {
      return r;
    }
    assert pbuf == disk.files[name][..length + 2];
    assert pbuf[..length] == disk.files[name][..length] && pbuf[length..] == disk.files[name][length..length + 2];
    var fcrc16 := pbuf[length..];
    var buf := new bv8[length](i requires 0 <= i < length => pbuf[i]);
    assert buf[..length] == pbuf[..length];
    var crc16 := Crc16Get(buf, length);
    if fcrc16 != CrcBytes(crc16, bigEndian) {
      return -5;
    }
    forall i | 0 <= i < length {
      pdata[i] := pbuf[i];
    }
    return 0;
  }

  lemma ReadingSucceedsExactlyIf(files: Store, name: string, n: nat, bigEndian: bool, t: Attempts)
    ensures LoadFrom(files, name, n, bigEndian, t).Loaded?
            <==> name in files && InTime(t) && Intact(files[name], n, bigEndian)
  {
    hide Crc, CrcBytes;
  }

  /** What one reading gives, spelled out. The file is reached if it is long enough and the first or the
      second attempt gets through to it; then the two bytes behind the payload decide. Otherwise the
      error is that of the last attempt that failed: the third, or the second if the third gets through. */
  lemma ReadingExactly(files: Store, name: string, n: nat, bigEndian: bool, t: Attempts)
    ensures var result := LoadFrom(files, name, n, bigEndian, t);
            var long := name in files && |files[name]| >= n + 2;
            var reached := long && ((1 !in t.unopened && 1 !in t.unread) || (2 !in t.unopened && 2 !in t.unread));
            var last := if long && 3 !in t.unopened && 3 !in t.unread then 2 else 3;
            var matches := reached && var c := Crc(files[name][..n]);
                files[name][n..n + 2] == if bigEndian then [HighByte(c), LowByte(c)] else [LowByte(c), HighByte(c)];
            && (result.Loaded? <==> matches)
            && (result.Loaded? ==> result.data == files[name][..n])
            && (result == Error(DataCrc) <==> reached && !matches)
            && (result == Error(FileOpen) <==> !reached && (name !in files || last in t.unopened))
            && (result == Error(FileRead) <==> !reached && name in files && last !in t.unopened)
  {
    hide Crc, HighByte, LowByte;
  }

  /** A store on the way of a recovery. */
  ghost predicate RecoveryStage(before: Store, name: string, f: Faults, s: Store) {
    OverwriteStage(before, BackupName(name), name, f, s)
  }

  ghost predicate RecoveryStages(before: Store, name: string, f: Faults, h: seq<Store>) {
    OverwriteStages(before, BackupName(name), name, f, h)
  }

  method FileRecovery(disk: Disk, name: string, faults: Faults) returns (r: int)
    requires disk.Valid()
    modifies disk
    ensures disk.Valid()
    ensures var (ok, store) := RecoveryResult(old(disk.files), name, faults);
            r == (if ok then 0 else -1) && disk.files == store
    ensures old(disk.history) <= disk.history
    ensures RecoveryStages(old(disk.files), name, faults, disk.history[|old(disk.history)|..])
  {
    hide CopyResult, StagesOf;
    ghost var before, past := disk.files, |disk.history|;
    var ok := disk.Cp(BackupName(name), name, true, faults);
    if BackupName(name) in before {
      StagesAreOverwriteStages(before, BackupName(name), name, faults, disk.history[past..]);
    }
    return if ok then 0 else -1;
  }

  /** A store on the way of a backup. */
  ghost predicate BackupStage(before: Store, name: string, f: Faults, s: Store) {
    OverwriteStage(before, name, BackupName(name), f, s)
  }

  ghost predicate BackupStages(before: Store, name: string, f: Faults, h: seq<Store>) {
    OverwriteStages(before, name, BackupName(name), f, h)
  }

  /** The copy is made if there is a file; its result is not looked at. */
  method FileBackup(disk: Disk, name: string, faults: Faults)
    requires disk.Valid()
    modifies disk
    ensures disk.Valid() && disk.files == BackupResult(old(disk.files), name, faults)
    ensures old(disk.history) <= disk.history
    ensures BackupStages(old(disk.files), name, faults, disk.history[|old(disk.history)|..])
  {
    hide CopyResult, StagesOf;
    if name in disk.files {
      ghost var before, past := disk.files, |disk.history|;
      var _ := disk.Cp(name, BackupName(name), true, faults);
      StagesAreOverwriteStages(before, name, BackupName(name), faults, disk.history[past..]);
    }
  }

  // ----- Saving -----

  /** A store that a save can be interrupted in once the backup is done with, complete or not: some of
      the payload, or all of it and some of its CRC, is in the file. */
  ghost predicate RecordStage(before: Store, name: string, payload: Bytes, bigEndian: bool, f: Faults, s: Store) {
    exists a: nat, b: nat | a <= |payload| && b <= 2 ::
      s == BackupResult(before, name, f)[name := Partial(payload, bigEndian, a, b)]
  }

  /** A store on the way of a save whose backup goes as f says. */
  ghost predicate SaveStage(before: Store, name: string, payload: Bytes, bigEndian: bool, f: Faults, s: Store) {
    BackupStage(before, name, f, s) || RecordStage(before, name, payload, bigEndian, f, s)
  }

  lemma PartialWritten(payload: Bytes, bigEndian: bool, a: nat, b: nat)
    requires a <= |payload| && b <= 2
    ensures Partial(payload, bigEndian, 0, 0) == []
    ensures WrittenAt([], 0, payload[..a]) == Partial(payload, bigEndian, a, 0)
    ensures WrittenAt(Partial(payload, bigEndian, a, 0), a, CrcBytes(Crc(payload), bigEndian)[..b])
         == Partial(payload, bigEndian, a, b)
  {
    hide Crc, CrcBytes;
  }

  /** The three states that writing a record goes through. */
  function RecordStates(s: Store, name: string, payload: Bytes, bigEndian: bool, a: nat, b: nat): seq<Store>
    requires a <= |payload| && b <= 2
  {
    [s[name := Partial(payload, bigEndian, 0, 0)],
     s[name := Partial(payload, bigEndian, a, 0)],
     s[name := Partial(payload, bigEndian, a, b)]]
  }

  /** The second half of a save: empty the file, write the payload and write the CRC. */
  method WriteRecord(disk: Disk, name: string, pdata: array<bv8>, length: nat, bigEndian: bool,
                     w1: WriteOutcome, w2: WriteOutcome)
    requires disk.Valid() && length <= pdata.Length
    modifies disk
    ensures disk.Valid()
    ensures var payload, a, b := pdata[..length], Taken(w1, length), Taken(w2, 2);
            && disk.files == old(disk.files)[name := Partial(payload, bigEndian, a, b)]
            && disk.history == old(disk.history) + RecordStates(old(disk.files), name, payload, bigEndian, a, b)
  {
    hide Crc, CrcBytes, Partial, WrittenAt, Taken;
    ghost var before, payload := disk.files, pdata[..length];
    var a, b := Taken(w1, length), Taken(w2, 2);
    PartialWritten(payload, bigEndian, a, b);
    disk.Open(name, true);
    ghost var s0 := disk.files;
    assert s0 == before[name := Partial(payload, bigEndian, 0, 0)];
    var crc16 := Crc16Get(pdata, length);
    disk.Write(name, 0, pdata[..length][..a]);
    ghost var s1 := disk.files;
    assert s1 == before[name := Partial(payload, bigEndian, a, 0)];
    disk.Write(name, a, CrcBytes(crc16, bigEndian)[..b]);
    assert disk.files == before[name := Partial(payload, bigEndian, a, b)];
  }

  lemma WhatIsTaken(payload: Bytes, bigEndian: bool, w1: WriteOutcome, w2: WriteOutcome)
    ensures Partial(payload, bigEndian, Taken(w1, |payload|), Taken(w2, 2))
         == var crc := Crc(payload);
            payload[..if w1.Wrote? then (if w1.n <= |payload| then w1.n else |payload|) else 0]
            + (if bigEndian then [HighByte(crc), LowByte(crc)] else [LowByte(crc), HighByte(crc)])
              [..if w2.Wrote? then (if w2.n <= 2 then w2.n else 2) else 0]
  {
    hide Crc, HighByte, LowByte;
  }

  /** Whatever fails, every state of a save is one of the stages, and the one in which the file is
      empty is always among them. */
  method StorageSave(disk: Disk, name: string, pdata: array<bv8>, length: nat, bigEndian: bool,
                     faults: Faults, opens: bool, w1: WriteOutcome, w2: WriteOutcome)
    returns (r: int)
    requires disk.Valid() && length <= pdata.Length
    modifies disk
    ensures disk.Valid()
    ensures (r, disk.files) == SaveResult(old(disk.files), name, pdata[..length], bigEndian, faults, opens, w1, w2)
    ensures r == if opens then 0 else -2
    ensures opens ==>
        var a := if w1.Wrote? then (if w1.n <= length then w1.n else length) else 0;
        var b := if w2.Wrote? then (if w2.n <= 2 then w2.n else 2) else 0;
        var crc := Crc(pdata[..length]);
        var bytes := if bigEndian then [HighByte(crc), LowByte(crc)] else [LowByte(crc), HighByte(crc)];
        name in disk.files && disk.files[name] == pdata[..length][..a] + bytes[..b]
    ensures old(disk.history) <= disk.history
    ensures SaveStages(old(disk.files), name, pdata[..length], bigEndian, faults, disk.history[|old(disk.history)|..])
    ensures opens ==>
        BackupResult(old(disk.files), name, faults)[name := []] in disk.history[|old(disk.history)|..]
  {
    hide Partial, BackupResult, Taken, BackupStages, SaveStages, RecordStates, Crc, HighByte, LowByte, CrcBytes;
    WhatIsTaken(pdata[..length], bigEndian, w1, w2);
    ghost var before, payload, past := disk.files, pdata[..length], |disk.history|;
    FileBackup(disk, name, faults);
    ghost var h := disk.history[past..];
    if !opens {
      BackupStagesAreSaveStages(before, name, payload, bigEndian, faults, h);
      return -2;
    }
    ghost var more := RecordStates(disk.files, name, payload, bigEndian, Taken(w1, length), Taken(w2, 2));
    WriteRecord(disk, name, pdata, length, bigEndian, w1, w2);
    assert disk.history[past..] == h + more;
    MoreSaveStages(before, name, payload, bigEndian, faults, h, Taken(w1, length), Taken(w2, 2));
    return 0;
  }

  ghost predicate SaveStages(before: Store, name: string, payload: Bytes, bigEndian: bool, f: Faults, h: seq<Store>) {
    forall i | 0 <= i < |h| :: SaveStage(before, name, payload, bigEndian, f, h[i])
  }

  lemma BackupStagesAreSaveStages(before: Store, name: string, payload: Bytes, bigEndian: bool, f: Faults,
                                  h: seq<Store>)
    requires BackupStages(before, name, f, h)
    ensures SaveStages(before, name, payload, bigEndian, f, h)
  {
    hide OverwriteStage, RecordStage;
  }

  lemma MoreSaveStages(before: Store, name: string, payload: Bytes, bigEndian: bool, f: Faults, h: seq<Store>,
                       a: nat, b: nat)
    requires BackupStages(before, name, f, h) && a <= |payload| && b <= 2
    ensures var s := BackupResult(before, name, f);
            var all := h + RecordStates(s, name, payload, bigEndian, a, b);
            SaveStages(before, name, payload, bigEndian, f, all) && s[name := []] in all
  {
    hide Partial, BackupResult, OverwriteStage, WrittenAt, Crc, CrcBytes, Record;
    PartialWritten(payload, bigEndian, a, b);
    var s := BackupResult(before, name, f);
    var all := h + RecordStates(s, name, payload, bigEndian, a, b);
    assert RecordStage(before, name, payload, bigEndian, f, s[name := Partial(payload, bigEndian, 0, 0)]);
    assert RecordStage(before, name, payload, bigEndian, f, s[name := Partial(payload, bigEndian, a, 0)]);
    assert RecordStage(before, name, payload, bigEndian, f, s[name := Partial(payload, bigEndian, a, b)]);
    assert all[|h|] == s[name := []];
    hide RecordStage;
    assert forall i | 0 <= i < |h| :: all[i] == h[i];
  }

  // ----- Loading -----

  /** A store on the way of a load: some beginning of the backup is in the file. */
  ghost predicate LoadStage(before: Store, name: string, c1: Faults, c2: Faults, s: Store) {
    RecoveryStage(before, name, c1, s) || RecoveryStage(before, name, c2, s)
  }

  ghost predicate LoadStages(before: Store, name: string, c1: Faults, c2: Faults, h: seq<Store>) {
    forall i | 0 <= i < |h| :: LoadStage(before, name, c1, c2, h[i])
  }

  lemma MoreLoadStages(before: Store, name: string, c1: Faults, c2: Faults, found: Store,
                       h1: seq<Store>, h2: seq<Store>)
    requires if name in before then found == before && h1 == []
             else found == RecoveryResult(before, name, c1).1 && RecoveryStages(before, name, c1, h1)
    requires RecoveryStages(found, name, c2, h2)
    ensures LoadStages(before, name, c1, c2, h1 + h2)
  {
    hide CopyResult, BytesCopied;
    var bak := BackupName(name);
    if bak in before {
      OverwriteResult(before, bak, name, c1);
    } else {
      NoSource(before, bak, name, c1);
    }
    forall i | 0 <= i < |h2|
      ensures RecoveryStage(before, name, c2, h2[i])
    {
      assert RecoveryStage(found, name, c2, h2[i]);
    }
    hide RecoveryStage;
  }

  /** The second half of a load: read, and if the CRC is wrong, recover and read again. */
  method LoadFound(disk: Disk, name: string, pdata: array<bv8>, length: nat, bigEndian: bool,
                   f1: Attempts, f2: Attempts, c2: Faults)
    returns (r: int)
    requires disk.Valid() && length <= pdata.Length
    modifies disk, pdata
    ensures disk.Valid()
    ensures var (result, store) := FoundOutcome(old(disk.files), name, length, bigEndian, f1, f2, c2);
            && r == Code(result) && result != Error(FileNotExist) && disk.files == store
            && pdata[..length] == Delivered(result, old(pdata[..length]))
            && pdata[length..] == old(pdata[length..])
            && (r == 0 ==> name in store && |store[name]| >= length + 2 && pdata[..length] == store[name][..length])
            && (r != 0 ==> forall i | 0 <= i < length :: pdata[i] == 0)
    ensures old(disk.history) <= disk.history
    ensures RecoveryStages(old(disk.files), name, c2, disk.history[|old(disk.history)|..])
  {
    hide Intact, RecoveryResult, InTime, RecoveryStage;
    r := LoadFile(disk, name, pdata, length, bigEndian, f1);
    if r == -5 {
      var recovered := FileRecovery(disk, name, c2);
      if recovered == 0 {
        r := LoadFile(disk, name, pdata, length, bigEndian, f2);
      }
    }
  }

  /** The whole load. f1 and f2 are the attempts that fail in the first reading and in the one after a
      recovery. */
  method StorageLoad(disk: Disk, name: string, pdata: array<bv8>, length: nat, bigEndian: bool,
                     f1: Attempts, f2: Attempts, c1: Faults, c2: Faults)
    returns (r: int)
    requires disk.Valid() && length <= pdata.Length
    modifies disk, pdata
    ensures disk.Valid()
    ensures var (result, store) := LoadOutcome(old(disk.files), name, length, bigEndian, f1, f2, c1, c2);
            && r == Code(result) && disk.files == store
            && pdata[..length] == Delivered(result, old(pdata[..length]))
            && pdata[length..] == old(pdata[length..])
    ensures r == 0 ==> name in disk.files && |disk.files[name]| >= length + 2
                       && pdata[..length] == disk.files[name][..length]
    ensures r == -2 || r == -4 || r == -5 ==> forall i | 0 <= i < length :: pdata[i] == 0
    ensures r == -1 ==> pdata[..] == old(pdata[..])
    ensures var (present, found) := if name in old(disk.files) then (true, old(disk.files))
                                    else CopyResult(old(disk.files), name + ".bak", name, true, c1);
            var first := LoadFrom(found, name, length, bigEndian, f1);
            var (again, store) := CopyResult(found, name + ".bak", name, true, c2);
            var result := if first == Error(DataCrc) && again then LoadFrom(store, name, length, bigEndian, f2)
                          else first;
            && (r == -1 <==> !present)
            && (r == 0 <==> present && result.Loaded?)
            && (r == -2 <==> present && result == Error(FileOpen))
            && (r == -4 <==> present && result == Error(FileRead))
            && (r == -5 <==> present && result == Error(DataCrc))
            && disk.files == if present && first == Error(DataCrc) then store else found
    ensures old(disk.history) <= disk.history
    ensures LoadStages(old(disk.files), name, c1, c2, disk.history[|old(disk.history)|..])
  {
    hide CopyResult, RecoveryStages, LoadStages, LoadFrom;
    ghost var before, past := disk.files, |disk.history|;
    if name !in disk.files {
      var recovered := FileRecovery(disk, name, c1);
      if recovered != 0 {
        NothingRecovered(disk.files, name, c2);
        MoreLoadStages(before, name, c1, c2, disk.files, disk.history[past..], []);
        assert disk.history[past..] + [] == disk.history[past..];
        return -1;
      }
    }
    ghost var found, h1, mid := disk.files, disk.history[past..], |disk.history|;
    r := LoadFound(disk, name, pdata, length, bigEndian, f1, f2, c2);
    MoreLoadStages(before, name, c1, c2, found, h1, disk.history[mid..]);
    assert disk.history[past..] == h1 + disk.history[mid..];
  }

  lemma NothingRecovered(s: Store, name: string, f: Faults)
    ensures RecoveryStages(s, name, f, [])
  {}

  // ----- What the two copies are for -----

  lemma RecordIsIntact(payload: Bytes, bigEndian: bool)
    ensures |Record(payload, bigEndian)| == |payload| + 2
    ensures Intact(Record(payload, bigEndian), |payload|, bigEndian)
    ensures Record(payload, bigEndian)[..|payload|] == payload
  {
    hide Crc, CrcBytes;
    var r := Record(payload, bigEndian);
    assert r[..|payload|] == payload && r[|payload|..|payload| + 2] == CrcBytes(Crc(payload), bigEndian);
  }

  /** What is loaded was saved: a saved payload comes back from a load of its length. */
  lemma LoadAfterSave(files: Store, name: string, payload: Bytes, bigEndian: bool, f1: Attempts, f2: Attempts)
    requires InTime(f1)
    ensures var s := Saved(files, name, payload, bigEndian);
            Load(s, name, |payload|, bigEndian, f1, f2) == (Loaded(payload), s)
  {
    hide Record;
    LoadOfIntact(Saved(files, name, payload, bigEndian), name, payload, bigEndian, f1, f2);
  }

  /** One array is saved and another loaded, with no failing call. Short and interrupted writes of the
      backup are no failure. */
  method SaveThenLoad(disk: Disk, name: string, a: array<bv8>, b: array<bv8>, length: nat, bigEndian: bool,
                      faults: Faults, w1: WriteOutcome, w2: WriteOutcome, f1: Attempts, f2: Attempts, c: Faults)
    returns (saved: int, loaded: int)
    requires disk.Valid() && length <= a.Length && length <= b.Length
    requires faults.opens && faults.closes && false !in faults.readable && Failed !in faults.writes
    requires w1.Wrote? && w1.n >= length && w2.Wrote? && w2.n >= 2
    requires 1 !in f1.unopened && 1 !in f1.unread
    modifies disk, b
    ensures disk.Valid() && saved == 0 && loaded == 0
    ensures b[..length] == old(a[..length]) && b[length..] == old(b[length..])
    ensures name in disk.files && |disk.files[name]| == length + 2 && disk.files[name][..length] == old(a[..length])
    ensures var crc := Crc(old(a[..length]));
            disk.files[name][length..] == if bigEndian then [HighByte(crc), LowByte(crc)]
                                          else [LowByte(crc), HighByte(crc)]
    ensures name in old(disk.files) ==>
        name + ".bak" in disk.files && disk.files[name + ".bak"] == old(disk.files)[name]
    ensures forall other | other != name && (name in old(disk.files) ==> other != name + ".bak") ::
              && (other in disk.files <==> other in old(disk.files))
              && (other in disk.files ==> disk.files[other] == old(disk.files)[other])
  {
    ghost var before, payload := disk.files, a[..length];
    FaultlessSave(before, name, payload, bigEndian, faults, w1, w2);
    RecordIsIntact(payload, bigEndian);
    LoadOfIntact(Saved(before, name, payload, bigEndian), name, payload, bigEndian, f1, f2);
    hide SaveResult, LoadOutcome, Load, LoadFrom, SaveStages, LoadStages, BackupResult, Crc, HighByte, LowByte,
      CopyResult, Intact, Partial;
    saved := StorageSave(disk, name, a, length, bigEndian, faults, true, w1, w2);
    assert disk.files == Saved(before, name, payload, bigEndian);
    PresentLoad(disk.files, name, length, bigEndian, f1, f2, c, payload);
    loaded := StorageLoad(disk, name, b, length, bigEndian, f1, f2, c, c);
  }

  /** Where the first reading succeeds, nothing is recovered, so it does not matter what would fail. */
  lemma PresentLoad(s: Store, name: string, n: nat, bigEndian: bool, f1: Attempts, f2: Attempts, c: Faults,
                    payload: Bytes)
    requires InTime(f1) && name in s && s[name] == Record(payload, bigEndian) && n == |payload|
    ensures LoadOutcome(s, name, n, bigEndian, f1, f2, c, c) == (Loaded(payload), s)
  {
    RecordIsIntact(payload, bigEndian);
    hide Record, Intact, CopyResult;
  }

  /** A save reports success whatever its writes took. What it reports saved is loaded exactly if both
      took everything; otherwise the load says that the file is too short. */
  lemma SaveIsLoadedExactlyIf(files: Store, name: string, payload: Bytes, bigEndian: bool,
                              f: Faults, w1: WriteOutcome, w2: WriteOutcome, f1: Attempts, f2: Attempts)
    requires InTime(f1)
    ensures var (r, s) := SaveResult(files, name, payload, bigEndian, f, true, w1, w2);
            var result := Load(s, name, |payload|, bigEndian, f1, f2).0;
            && r == 0
            && (result == Loaded(payload) <==> Taken(w1, |payload|) == |payload| && Taken(w2, 2) == 2)
            && (result != Loaded(payload) ==> result == Error(if 3 in f1.unopened then FileOpen else FileRead))
  {
    hide BackupResult, Partial, Record, Intact, Taken, CrcBytes, Crc;
    var s := SaveResult(files, name, payload, bigEndian, f, true, w1, w2).1;
    if Taken(w1, |payload|) == |payload| && Taken(w2, 2) == 2 {
      WholePartial(payload, bigEndian);
      LoadOfIntact(s, name, payload, bigEndian, f1, f2);
    }
  }

  /** The store after a run of saves. */
  function SavedAll(files: Store, name: string, payloads: seq<Bytes>, bigEndian: bool): Store {
    if payloads == [] then files
    else Saved(SavedAll(files, name, payloads[..|payloads| - 1], bigEndian), name, payloads[|payloads| - 1], bigEndian)
  }

  /** After any run of at least two saves the file holds the last payload, the backup the one
      before, and no other file has been touched. */
  lemma {:induction false} TwoCopies(files: Store, name: string, payloads: seq<Bytes>, bigEndian: bool)
    ensures var s, k := SavedAll(files, name, payloads, bigEndian), |payloads|;
            && (k >= 1 ==> name in s && s[name] == Record(payloads[k - 1], bigEndian))
            && (k >= 2 ==> BackupName(name) in s && s[BackupName(name)] == Record(payloads[k - 2], bigEndian))
            && forall f | f != name && f != BackupName(name) ::
                (f in s <==> f in files) && (f in s ==> s[f] == files[f])
  {
    hide Record;
    if payloads != [] {
      TwoCopies(files, name, payloads[..|payloads| - 1], bigEndian);
    }
  }

  lemma IntactExactlyIf(d: Bytes, payload: Bytes, bigEndian: bool)
    requires |d| == |payload|
    ensures var file := d + CrcBytes(Crc(payload), bigEndian);
            && file[..|d|] == d
            && (Intact(file, |d|, bigEndian) <==> Crc(d) == Crc(payload))
  {
    var file := d + CrcBytes(Crc(payload), bigEndian);
    assert file[..|d|] == d && file[|d|..|d| + 2] == CrcBytes(Crc(payload), bigEndian);
    if CrcBytes(Crc(payload), bigEndian) == CrcBytes(Crc(d), bigEndian) {
      CrcBytesDistinct(Crc(payload), Crc(d), bigEndian);
    }
    hide CrcBytes, Crc;
  }

  lemma CrcBytesDistinct(a: bv16, b: bv16, bigEndian: bool)
    requires CrcBytes(a, bigEndian) == CrcBytes(b, bigEndian)
    ensures a == b
  {
    var x, y := CrcBytes(a, bigEndian), CrcBytes(b, bigEndian);
    assert x[0] == y[0] && x[1] == y[1];
    assert HighByte(a) == HighByte(b) && LowByte(a) == LowByte(b);
    BytesOfRegister(a);
    BytesOfRegister(b);
    hide HighByte, LowByte, Xor;
  }

  /** A file whose payload is not the one its CRC was taken of, beside a good backup. */
  lemma LoadOfDamaged(s: Store, name: string, last: Bytes, previous: Bytes, bigEndian: bool,
                      d: Bytes, f1: Attempts, f2: Attempts)
    requires InTime(f1) && InTime(f2) && |d| == |last| == |previous|
    requires name in s && s[name] == d + CrcBytes(Crc(last), bigEndian)
    requires BackupName(name) in s && s[BackupName(name)] == Record(previous, bigEndian)
    ensures Load(s, name, |d|, bigEndian, f1, f2)
         == if Crc(d) == Crc(last) then (Loaded(d), s)
            else (Loaded(previous), s[name := Record(previous, bigEndian)])
  {
    IntactExactlyIf(d, last, bigEndian);
    RecordIsIntact(previous, bigEndian);
    hide Record, Intact, Crc, CrcBytes;
  }

  /** The store after a run of saves, when the payload of the last one has been damaged to d. */
  function Damaged(files: Store, name: string, payloads: seq<Bytes>, bigEndian: bool, d: Bytes): Store
    requires payloads != []
  {
    SavedAll(files, name, payloads, bigEndian)[name := d + CrcBytes(Crc(payloads[|payloads| - 1]), bigEndian)]
  }

  function Repaired(files: Store, name: string, payloads: seq<Bytes>, bigEndian: bool, d: Bytes): Store
    requires |payloads| >= 2
  {
    Damaged(files, name, payloads, bigEndian, d)[name := Record(payloads[|payloads| - 2], bigEndian)]
  }

  /** Damage to the payload of the last of two saves of one length: if the CRC sees it, a load
      gives the payload before, puts the backup in the place of the damaged file byte for byte, and
      the next load finds nothing to repair. If the CRC does not, the damage is loaded. */
  lemma DamageIsRepairedExactlyIf(files: Store, name: string, payloads: seq<Bytes>, bigEndian: bool, d: Bytes,
                                  f1: Attempts, f2: Attempts, f3: Attempts, f4: Attempts)
    requires InTime(f1) && InTime(f2) && InTime(f3) && |payloads| >= 2
    requires |payloads[|payloads| - 2]| == |payloads[|payloads| - 1]| == |d|
    ensures var last, previous := payloads[|payloads| - 1], payloads[|payloads| - 2];
            var damaged := Damaged(files, name, payloads, bigEndian, d);
            var repaired := Repaired(files, name, payloads, bigEndian, d);
            && Load(damaged, name, |d|, bigEndian, f1, f2)
               == (if Crc(d) == Crc(last) then (Loaded(d), damaged) else (Loaded(previous), repaired))
            && Load(repaired, name, |d|, bigEndian, f3, f4) == (Loaded(previous), repaired)
            && BackupName(name) in repaired && repaired[name] == repaired[BackupName(name)]
  {
    hide SavedAll, Record, Intact, Crc, CrcBytes, Load;
    var k := |payloads|;
    TwoCopies(files, name, payloads, bigEndian);
    var damaged := Damaged(files, name, payloads, bigEndian, d);
    LoadOfDamaged(damaged, name, payloads[k - 1], payloads[k - 2], bigEndian, d, f1, f2);
    LoadOfIntact(Repaired(files, name, payloads, bigEndian, d), name, payloads[k - 2], bigEndian, f3, f4);
  }

  lemma LoadOfIntact(s: Store, name: string, payload: Bytes, bigEndian: bool, f1: Attempts, f2: Attempts)
    requires InTime(f1) && name in s && s[name] == Record(payload, bigEndian)
    ensures Load(s, name, |payload|, bigEndian, f1, f2) == (Loaded(payload), s)
  {
    RecordIsIntact(payload, bigEndian);
    hide Record, Intact;
  }

  /** Error patterns that are never missed. */
  ghost predicate Detectable(a: Bytes, b: Bytes)
    requires |a| == |b|
  {
    a != b &&
    ((exists k :: AdjacentPair(a, b, k)) ||
     (exists p: nat :: DifferWithin(MessageBits(a), MessageBits(b), p, 16)) ||
     Odd(XorBits(MessageBits(a), MessageBits(b))) ||
     (|a| <= 4095 && Ones(XorBits(MessageBits(a), MessageBits(b))) == 2))
  }

  ghost predicate AdjacentPair(a: Bytes, b: Bytes, k: nat)
    requires |a| == |b|
  {
    forall i | 0 <= i < |a| && a[i] != b[i] :: i == k || i == k + 1
  }

  /** One or two adjacent bytes, any sixteen adjacent bits, any odd number of bits, and in payloads of
      up to 4095 bytes any two bits: the previous save is loaded and restored. */
  lemma DetectableDamageIsRepaired(files: Store, name: string, payloads: seq<Bytes>, bigEndian: bool, d: Bytes,
                                   f1: Attempts, f2: Attempts, f3: Attempts, f4: Attempts)
    requires InTime(f1) && InTime(f2) && InTime(f3) && |payloads| >= 2
    requires |payloads[|payloads| - 2]| == |payloads[|payloads| - 1]| == |d|
    requires Detectable(payloads[|payloads| - 1], d)
    ensures var previous, repaired := payloads[|payloads| - 2], Repaired(files, name, payloads, bigEndian, d);
            && Load(Damaged(files, name, payloads, bigEndian, d), name, |d|, bigEndian, f1, f2)
               == (Loaded(previous), repaired)
            && Load(repaired, name, |d|, bigEndian, f3, f4) == (Loaded(previous), repaired)
  {
    hide Load, Damaged, Repaired, Crc, Odd, MessageBits, XorBits, Ones;
    var last := payloads[|payloads| - 1];
    if k: nat :| AdjacentPair(last, d, k) {
      TwoAdjacentBytesChangeCrc(last, d, k);
    } else if p: nat :| DifferWithin(MessageBits(last), MessageBits(d), p, 16) {
      BurstChangesCrc(last, d, p);
    } else if Odd(XorBits(MessageBits(last), MessageBits(d))) {
      OddErrorChangesCrc(last, d);
    } else {
      ThreeBitErrorsChangeCrc(last, d);
    }
    DamageIsRepairedExactlyIf(files, name, payloads, bigEndian, d, f1, f2, f3, f4);
  }

  // ----- Damage that reaches into the CRC -----

  lemma RecordResidue(payload: Bytes)
    ensures Crc(Record(payload, true)) == 0
  {
    hide Crc, HighByte, LowByte;
    ResidueIsZero(payload);
  }

  lemma IntactIsRecord(m: Bytes, bigEndian: bool)
    requires |m| >= 2 && Intact(m, |m| - 2, bigEndian)
    ensures m == Record(m[..|m| - 2], bigEndian)
  {
    hide Crc, CrcBytes;
    assert m == m[..|m| - 2] + m[|m| - 2..];
  }

  /** Where the CRC is stored high byte first, a burst of sixteen bits anywhere in the record is
      seen, also one that starts in the payload and ends in the CRC. */
  lemma BurstInRecordIsSeen(payload: Bytes, m: Bytes, p: nat)
    requires |m| == |payload| + 2 == |Record(payload, true)| && m != Record(payload, true)
    requires DifferWithin(MessageBits(Record(payload, true)), MessageBits(m), p, 16)
    ensures !Intact(m, |payload|, true)
  {
    hide Crc, CrcBytes, MessageBits, Record;
    if Intact(m, |payload|, true) {
      IntactIsRecord(m, true);
      RecordResidue(payload);
      RecordResidue(m[..|m| - 2]);
      BurstChangesCrc(Record(payload, true), m, p);
    }
  }

  /** The last byte of a payload and the low byte of its CRC can change together. */
  lemma BorderChange(front: Bytes, last: bv8)
    ensures var p, q := front + [last], front + [Gf256.Add(last, 0x89)];
            Crc(q) == Xor(Crc(p), 0x00a1)
  {
    var r := Crc(front);
    var p, q := front + [last], front + [Gf256.Add(last, 0x89)];
    assert p[..|p| - 1] == front && q[..|q| - 1] == front;
    ByteStepIsEightTimesX(r, last);
    ByteStepIsEightTimesX(r, Gf256.Add(last, 0x89));
    hide ByteStep, EightTimesX;
    HighHalfOfXor(last, 0x89);
    var b, e := (last as bv16) << 8, (0x89 as bv8 as bv16) << 8;
    XorAssociative(r, b, e);
    EightTimesXLinear(Xor(r, b), e);
    BorderConstant();
    hide Xor, Gf256.Add;
  }

  lemma HighHalfOfXor(a: bv8, b: bv8)
    ensures (Gf256.Add(a, b) as bv16) << 8 == Xor((a as bv16) << 8, (b as bv16) << 8)
  {}

  lemma BorderConstant()
    ensures EightTimesX((0x89 as bv8 as bv16) << 8) == 0x00a1
  {
    TableIsEightSteps(0x89);
    hide EightTimesX;
  }

  lemma BorderBytes(c: bv16)
    ensures HighByte(Xor(c, 0x00a1)) == HighByte(c) && LowByte(Xor(c, 0x00a1)) == Gf256.Add(LowByte(c), 0xa1)
    ensures Gf256.Add(LowByte(c), 0xa1) != LowByte(c)
  {}

  /** Whether the CRC sees every change of the two adjacent bytes at k of a payload's record. */
  ghost predicate SeesPairAt(payload: Bytes, bigEndian: bool, k: nat) {
    forall m: Bytes
      | |m| == |Record(payload, bigEndian)| && m != Record(payload, bigEndian)
        && AdjacentPair(Record(payload, bigEndian), m, k)
      :: !Intact(m, |payload|, bigEndian)
  }

  lemma PairSeenHighFirst(payload: Bytes, k: nat, m: Bytes)
    requires |m| == |Record(payload, true)| && m != Record(payload, true)
    requires AdjacentPair(Record(payload, true), m, k)
    ensures !Intact(m, |payload|, true)
  {
    hide Crc, CrcBytes;
    assert |m| == |payload| + 2;
    if Intact(m, |payload|, true) {
      IntactIsRecord(m, true);
      RecordResidue(payload);
      RecordResidue(m[..|m| - 2]);
      TwoAdjacentBytesChangeCrc(Record(payload, true), m, k);
    }
  }

  /** Away from the border between payload and CRC the order of the CRC's bytes does not matter. */
  lemma PairSeenAwayFromBorder(payload: Bytes, bigEndian: bool, k: nat, m: Bytes)
    requires k + 1 != |payload|
    requires |m| == |Record(payload, bigEndian)| && m != Record(payload, bigEndian)
    requires AdjacentPair(Record(payload, bigEndian), m, k)
    ensures !Intact(m, |payload|, bigEndian)
  {
    hide Crc, CrcBytes;
    var n, r := |payload|, Record(payload, bigEndian);
    assert r[..n] == payload && r[n..n + 2] == CrcBytes(Crc(payload), bigEndian);
    if m[..n] == payload {
      assert m == m[..n] + m[n..n + 2] && r == payload + r[n..n + 2];
    } else {
      var i :| 0 <= i < n && m[..n][i] != payload[i];
      assert r[i] != m[i];
      assert k + 1 < n;
      assert m[n..n + 2] == r[n..n + 2];
      assert forall p | 0 <= p < n && payload[p] != m[..n][p] :: r[p] != m[p];
      TwoAdjacentBytesChangeCrc(payload, m[..n], k);
      if CrcBytes(Crc(m[..n]), bigEndian) == CrcBytes(Crc(payload), bigEndian) {
        CrcBytesDistinct(Crc(m[..n]), Crc(payload), bigEndian);
      }
    }
  }

  /** At the border, with the low byte stored first, every payload has a change that goes unseen. */
  lemma PairMissedAtBorder(payload: Bytes) returns (m: Bytes)
    requires payload != []
    ensures |m| == |Record(payload, false)| && m != Record(payload, false)
    ensures AdjacentPair(Record(payload, false), m, |payload| - 1) && Intact(m, |payload|, false)
  {
    var n := |payload| - 1;
    var q := payload[..n] + [Gf256.Add(payload[n], 0x89)];
    BorderChange(payload[..n], payload[n]);
    assert payload == payload[..n] + [payload[n]];
    BorderBytes(Crc(payload));
    hide Crc, HighByte, LowByte, Gf256.Add, Xor;
    m := Record(q, false);
    var r := Record(payload, false);
    RecordIsIntact(q, false);
    assert m[n + 1] == LowByte(Crc(q)) && r[n + 1] == LowByte(Crc(payload));
    assert m[n + 2] == HighByte(Crc(q)) && r[n + 2] == HighByte(Crc(payload));
    assert forall i | 0 <= i < n :: m[i] == payload[i] && r[i] == payload[i];
  }

  /** Two adjacent bytes of a record never change unseen, unless they are the last byte of the payload
      and the first of a CRC stored low byte first. */
  lemma SeesPairAtExactlyIf(payload: Bytes, bigEndian: bool, k: nat)
    ensures SeesPairAt(payload, bigEndian, k) <==> bigEndian || k + 1 != |payload|
  {
    hide Crc, CrcBytes, Record, Intact;
    if bigEndian || k + 1 != |payload| {
      forall m: Bytes
        | |m| == |Record(payload, bigEndian)| && m != Record(payload, bigEndian)
          && AdjacentPair(Record(payload, bigEndian), m, k)
        ensures !Intact(m, |payload|, bigEndian)
      {
        if bigEndian {
          PairSeenHighFirst(payload, k, m);
        } else {
          PairSeenAwayFromBorder(payload, bigEndian, k, m);
        }
      }
    } else {
      var m := PairMissedAtBorder(payload);
    }
  }

  // ----- A save that is interrupted -----

  lemma LoadOfMissing(s: Store, name: string, n: nat, bigEndian: bool, f1: Attempts, f2: Attempts)
    requires InTime(f1) && name !in s && BackupName(name) in s && Intact(s[BackupName(name)], n, bigEndian)
    ensures Load(s, name, n, bigEndian, f1, f2).0 == Loaded(s[BackupName(name)][..n])
  {
    hide Crc, CrcBytes;
  }

  /** An intact copy of n bytes is in the file or in the backup. */
  predicate Recoverable(s: Store, name: string, n: nat, bigEndian: bool) {
    || (name in s && Intact(s[name], n, bigEndian))
    || (BackupName(name) in s && Intact(s[BackupName(name)], n, bigEndian))
  }

  /** The copy that a save relies on until the new record is complete is intact: the backup it makes,
      if there is a file and the backup can be opened, and else the backup that is there. */
  predicate Guarded(s: Store, name: string, n: nat, bigEndian: bool, f: Faults) {
    if name in s && f.opens then Intact(s[name], n, bigEndian) && BytesCopied(f, |s[name]|) >= n + 2
    else BackupName(name) in s && Intact(s[BackupName(name)], n, bigEndian)
  }

  function GuardedPayload(s: Store, name: string, n: nat, bigEndian: bool, f: Faults): Bytes
    requires Guarded(s, name, n, bigEndian, f)
  {
    if name in s && f.opens then s[name][..n] else s[BackupName(name)][..n]
  }

  lemma IntactBeginning(file: Bytes, m: nat, n: nat, bigEndian: bool)
    requires m <= |file|
    ensures Intact(file[..m], n, bigEndian) <==> m >= n + 2 && Intact(file, n, bigEndian)
    ensures m >= n + 2 ==> file[..m][..n] == file[..n]
  {
    if m >= n + 2 {
      assert file[..m][..n] == file[..n] && file[..m][n..n + 2] == file[n..n + 2];
    }
    hide Crc, CrcBytes;
  }

  lemma KeptBackup(before: Store, name: string, f: Faults)
    ensures BackupResult(before, name, f)
         == if name in before && f.opens then
              before[BackupName(name) := before[name][..BytesCopied(f, |before[name]|)]]
            else before
  {
    hide CopyResult, BytesCopied;
    if name in before {
      OverwriteResult(before, name, BackupName(name), f);
    }
  }

  /** ... in other words, the backup the save goes on with is intact. */
  lemma GuardedIsKept(before: Store, name: string, n: nat, bigEndian: bool, f: Faults)
    ensures var kept := BackupResult(before, name, f);
            && (Guarded(before, name, n, bigEndian, f)
                <==> BackupName(name) in kept && Intact(kept[BackupName(name)], n, bigEndian))
            && (Guarded(before, name, n, bigEndian, f) ==>
                  kept[BackupName(name)][..n] == GuardedPayload(before, name, n, bigEndian, f))
  {
    hide BackupResult, Intact, BytesCopied;
    KeptBackup(before, name, f);
    if name in before && f.opens {
      IntactBeginning(before[name], BytesCopied(f, |before[name]|), n, bigEndian);
    }
  }

  lemma ShortIsNotIntact(file: Bytes, n: nat, bigEndian: bool)
    requires |file| < n + 2
    ensures !Intact(file, n, bigEndian)
  {}

  lemma IntactIsLong(file: Bytes, n: nat, bigEndian: bool)
    requires Intact(file, n, bigEndian)
    ensures |file| >= n + 2
  {}

  /** Wherever a save is cut off, and whatever fails in its backup, an intact copy is left exactly if
      the copy it relies on is intact. */
  lemma AlwaysRecoverableExactlyIf(before: Store, name: string, payload: Bytes, bigEndian: bool, f: Faults)
    ensures (forall s | SaveStage(before, name, payload, bigEndian, f, s) ::
               Recoverable(s, name, |payload|, bigEndian))
            <==> Guarded(before, name, |payload|, bigEndian, f)
  {
    hide Intact, Partial, BackupResult, Guarded, BytesCopied;
    var n := |payload|;
    GuardedIsKept(before, name, n, bigEndian, f);
    var kept := BackupResult(before, name, f);
    var empty := kept[name := Partial(payload, bigEndian, 0, 0)];
    assert RecordStage(before, name, payload, bigEndian, f, empty);
    ShortIsNotIntact(empty[name], n, bigEndian);
    if Guarded(before, name, n, bigEndian, f) {
      forall s | SaveStage(before, name, payload, bigEndian, f, s)
        ensures Recoverable(s, name, n, bigEndian)
      {
        if BackupStage(before, name, f, s) {
          GuardedFile(before, name, n, bigEndian, f);
        }
      }
    } else {
      assert !Recoverable(empty, name, n, bigEndian);
    }
  }

  lemma GuardedFile(before: Store, name: string, n: nat, bigEndian: bool, f: Faults)
    requires name in before && f.opens && Guarded(before, name, n, bigEndian, f)
    ensures Intact(before[name], n, bigEndian) && GuardedPayload(before, name, n, bigEndian, f) == before[name][..n]
  {}

  /** Without a failing call it is enough that the file is intact, or without a file the backup. */
  lemma FaultlessRecoverableExactlyIf(before: Store, name: string, payload: Bytes, bigEndian: bool, f: Faults)
    requires Faultless(f)
    ensures (forall s | SaveStage(before, name, payload, bigEndian, f, s) ::
               Recoverable(s, name, |payload|, bigEndian))
            <==> if name in before then Intact(before[name], |payload|, bigEndian)
                 else BackupName(name) in before && Intact(before[BackupName(name)], |payload|, bigEndian)
  {
    hide Crc, CrcBytes, SaveStage, Recoverable;
    AlwaysRecoverableExactlyIf(before, name, payload, bigEndian, f);
    if name in before {
      FaultlessCompletes(f, |before[name]|, 0, 0);
    }
  }

  /** A save that runs to its end says that it was successful. It leaves an intact copy exactly if it
      has written the whole record or the copy it relies on was intact. */
  lemma SaveLeavesCopyExactlyIf(before: Store, name: string, payload: Bytes, bigEndian: bool, f: Faults,
                                w1: WriteOutcome, w2: WriteOutcome)
    ensures var (r, s) := SaveResult(before, name, payload, bigEndian, f, true, w1, w2);
            && r == 0
            && (Recoverable(s, name, |payload|, bigEndian)
                <==> (Taken(w1, |payload|) == |payload| && Taken(w2, 2) == 2)
                     || Guarded(before, name, |payload|, bigEndian, f))
  {
    hide Intact, Partial, BackupResult, Guarded, Record, Taken;
    var n, s := |payload|, SaveResult(before, name, payload, bigEndian, f, true, w1, w2).1;
    GuardedIsKept(before, name, n, bigEndian, f);
    if Taken(w1, n) == n && Taken(w2, 2) == 2 {
      WholePartial(payload, bigEndian);
      RecordIsIntact(payload, bigEndian);
    } else {
      ShortIsNotIntact(s[name], n, bigEndian);
    }
  }

  /** On a full disk a save of a file that is there empties the backup, empties the file, and says that
      it was successful: however many intact copies there were before, none is left. */
  lemma FullDiskLosesBothCopies(before: Store, name: string, payload: Bytes, bigEndian: bool)
    requires name in before
    ensures SaveResult(before, name, payload, bigEndian, Faults(true, [], [Failed], true), true, Failed, Failed)
         == (0, before[BackupName(name) := []][name := []])
    ensures !Recoverable(before[BackupName(name) := []][name := []], name, |payload|, bigEndian)
  {
    NothingFits(|before[name]|);
    KeptBackup(before, name, Faults(true, [], [Failed], true));
    PartialWritten(payload, bigEndian, 0, 0);
    assert before[name][..0] == [];
    hide BackupResult, Partial, Crc, CrcBytes, BytesCopied;
  }

  lemma NothingFits(total: nat)
    ensures BytesCopied(Faults(true, [], [Failed], true), total) == 0
  {
    if total > 0 {
      var f := Faults(true, [], [Failed], true);
      NextRead(f, total, 0);
      NextWrite(f, total, Min(total, CHUNK), 0);
    }
  }

  /** Cut off at any point, a save that relies on an intact copy leaves a store from which the old
      payload or the new one is loaded, exactly if the new record is not left incomplete. If it is,
      the file is merely too short, which the load does not repair; the old payload is intact in the
      backup, and is loaded once the short file is out of the way. */
  lemma InterruptedSave(before: Store, name: string, payload: Bytes, bigEndian: bool, f: Faults, s: Store,
                        f1: Attempts, f2: Attempts)
    requires InTime(f1) && InTime(f2)
    requires Guarded(before, name, |payload|, bigEndian, f)
    requires SaveStage(before, name, payload, bigEndian, f, s)
    ensures name in s
    ensures var result := Load(s, name, |payload|, bigEndian, f1, f2).0;
            var previous := GuardedPayload(before, name, |payload|, bigEndian, f);
            && (result.Loaded? <==> |s[name]| >= |payload| + 2)
            && (result.Loaded? ==> result.data == previous || result.data == payload)
            && (!result.Loaded? ==>
                  && result == Error(if 3 in f1.unopened then FileOpen else FileRead)
                  && Load(s - {name}, name, |payload|, bigEndian, f1, f2).0 == Loaded(previous))
  {
    hide Partial, Record, Intact, BackupResult, Guarded, BytesCopied;
    var n := |payload|;
    if BackupStage(before, name, f, s) {
      GuardedFile(before, name, n, bigEndian, f);
      IntactIsLong(before[name], n, bigEndian);
    } else {
      GuardedIsKept(before, name, n, bigEndian, f);
      var kept := BackupResult(before, name, f);
      var a: nat, b: nat :| a <= n && b <= 2 && s == kept[name := Partial(payload, bigEndian, a, b)];
      if a + b == n + 2 {
        WholePartial(payload, bigEndian);
        LoadOfIntact(s, name, payload, bigEndian, f1, f2);
      }
      assert BackupName(name) in s - {name};
      LoadOfMissing(s - {name}, name, n, bigEndian, f1, f2);
    }
  }

  /** The next save backs the short file up, over the only good copy: cut off as well, it can leave
      neither copy intact. */
  lemma SecondInterruptedSave(before: Store, name: string, payload: Bytes, bigEndian: bool, f: Faults,
                              next: Bytes, g: Faults, s: Store)
    requires |next| == |payload| && g.opens && SaveStage(before, name, payload, bigEndian, f, s)
    requires name in s && |s[name]| < |payload| + 2
    ensures exists t :: SaveStage(s, name, next, bigEndian, g, t) && !Recoverable(t, name, |payload|, bigEndian)
  {
    hide Intact, SaveStage, Recoverable;
    ShortIsNotIntact(s[name], |payload|, bigEndian);
    AlwaysRecoverableExactlyIf(s, name, next, bigEndian, g);
  }

  // ----- A load that is interrupted -----

  /** Cut off or failing while it restores an intact backup, a load leaves some of it in the file. The
      next load, whatever fails in it, gives the backup's payload exactly if that is enough of it.
      Otherwise it reports that it cannot read the file, and changes nothing: so does every later one. */
  lemma InterruptedRecovery(before: Store, name: string, n: nat, bigEndian: bool, f: Faults, s: Store,
                            f1: Attempts, f2: Attempts, c1: Faults, c2: Faults)
    requires RecoveryStage(before, name, f, s) && Intact(before[BackupName(name)], n, bigEndian) && InTime(f1)
    ensures name in s && BackupName(name) in s && s[BackupName(name)] == before[BackupName(name)]
    ensures LoadOutcome(s, name, n, bigEndian, f1, f2, c1, c2)
         == (if |s[name]| >= n + 2 then Loaded(before[BackupName(name)][..n])
             else Error(if 3 in f1.unopened then FileOpen else FileRead), s)
  {
    hide Intact, RecoveryResult, BytesCopied;
    var bak := BackupName(name);
    var m :| 0 <= m <= BytesCopied(f, |before[bak]|) && s == before[name := before[bak][..m]];
    IntactBeginning(before[bak], m, n, bigEndian);
  }
}
