/** `producer` end to end (lib/producer.js:169-362): read the baseline,
    locate its markers, stream binary, payload and prelude into the output,
    then patch the five markers in place. File I/O on the output is a
    pure transformation of the filesystem map; the faults of opening,
    writing and closing it are inputs. */
module Producer {
  import opened Common
  import opened Resolver
  import opened Assembler
  import Encoders
  import Decimal
  import P = Placeholders

  /** Which output-file operations report an error: the write stream the
      segments are piped into, opening for the patch, the five patch writes
      and closing. */
  datatype Faults = Faults(stream: bool, open: bool, writes: set<P.Slot>, close: bool)

  /** The streamed output with everything the patch step needs. */
  datatype Assembled = Assembled(output: Bytes, fs: Fs, vfs: Vfs, placeholders: P.Placeholders, values: P.Values)

  /** The promise's settlement: the output written and patched, or the
      error it was rejected with. */
  datatype Outcome = Built(output: Bytes, fs: Fs) | Failed(error: Error)

  /** The per-build inputs after normalization. */
  function JobOf(env: Env, build: Build, binary: Bytes): Job
  {
    Job(env, build, binary, env.snapshotify(build.backpack.entrypoint, build.slash), SnapLinks(env, build.slash, build.symLinks))
  }

  /** The closure variables before the first segment. */
  function Start(env: Env, build: Build, fs: Fs): State
  {
    State(0, build.backpack.stripes, None, 0, 0, InitVfs(env, build.slash, build.backpack.stripes), 0, 0, 0, fs)
  }

  /** Everything up to the stream's `close` event. */
  function Assemble(env: Env, build: Build, fs: Fs): (r: Result<Assembled>)
    ensures build.target.binaryPath !in fs ==> r == Err(Io(build.target.binaryPath))
    ensures r.Ok? ==> forall slot: P.Slot :: P.WithinPrefix(r.value.placeholders.Get(slot), |fs[build.target.binaryPath]|)
  {
    if build.target.binaryPath !in fs then Err(Io(build.target.binaryPath))
    else
      var binary := fs[build.target.binaryPath];
      match Run(JobOf(env, build, binary), Start(env, build, fs), [])
      case Err(e) => Err(e)
      case Ok((st, out)) =>
        Ok(Assembled(out, st.fs, st.vfs, P.DiscoverAll(binary),
          P.Values(Encoders.BakeryValue(build.bakes), st.payloadPosition, st.payloadSize, st.preludePosition, st.meter)))
  }

  /** The end of the stream: an error of the write stream rejects the
      promise; otherwise the `close` handler opens the output, patches the
      markers in order and closes it. The output file holds the patched
      bytes. */
  function Settle(assembled: Result<Assembled>, output: string, faults: Faults): (r: Outcome)
    ensures r.Built? ==> output in r.fs && r.fs[output] == r.output
  {
    match assembled
    case Err(e) => Failed(e)
    case Ok(a) =>
      if faults.stream || faults.open then Failed(Io(output))
      else
        var patched := P.InjectAll(a.output, a.placeholders, a.values, faults.writes);
        if patched.error.Some? then Failed(patched.error.value)
        else if faults.close then Failed(Io(output))
        else Built(patched.file, a.fs[output := patched.file])
  }

  /** `producer`: the promise settles with the patched output or with the
      first error of reading, streaming, opening, patching or closing. */
  function Produce(env: Env, build: Build, fs: Fs, faults: Faults): (r: Outcome)
    ensures r.Built? ==> build.target.output in r.fs && r.fs[build.target.output] == r.output
    ensures build.target.binaryPath !in fs ==> r == Failed(Io(build.target.binaryPath))
  {
    Settle(Assemble(env, build, fs), build.target.output, faults)
  }

  // ---------------------------------------------------------------------
  // Layout

  /** The reference ledger: the initial index entered with the pieces. */
  function FinalLedger(env: Env, build: Build, ps: seq<Piece>): Ledger
  {
    Index(Ledger(InitVfs(env, build.slash, build.backpack.stripes), 0), ps)
  }

  /** The three phases of the stream: binary, then every stripe's bytes,
      then the prelude; the positions are the binary's length, the counted
      payload length and their sum, and the prelude size is the prelude's
      length. A failing dispatch fails the build with its error. */
  lemma AssembleLayout(env: Env, build: Build, fs: Fs)
    requires build.target.binaryPath in fs
    ensures var binary := fs[build.target.binaryPath];
            var a := Assemble(env, build, fs);
            match DispatchAll(env, build, fs, build.backpack.stripes)
            case Err(e) => a == Err(e)
            case Ok((ps, fs1)) =>
              var l := FinalLedger(env, build, ps);
              var prelude := Prelude(JobOf(env, build, binary), l.vfs);
              && a.Ok?
              && a.value.output == binary + Payload(ps) + prelude
              && a.value.vfs == l.vfs
              && a.value.fs == fs1
              && a.value.placeholders == P.DiscoverAll(binary)
              && a.value.values == P.Values(Encoders.BakeryValue(build.bakes), |binary|, CountedLen(ps), |binary| + CountedLen(ps), |prelude|)
  {
    RunFromStart(env, build, fs);
  }

  /** `AssembleLayout` for the state machine run from the start. */
  lemma RunFromStart(env: Env, build: Build, fs: Fs)
    requires build.target.binaryPath in fs
    ensures var binary := fs[build.target.binaryPath];
            var job := JobOf(env, build, binary);
            var r := Run(job, Start(env, build, fs), []);
            var d := DispatchAll(env, build, fs, build.backpack.stripes);
            if d.Err? then r == Err(d.error)
            else
              var ps := d.value.0;
              var l := FinalLedger(env, build, ps);
              && r.Ok?
              && r.value.1 == binary + Payload(ps) + Prelude(job, l.vfs)
              && r.value.0.vfs == l.vfs
              && r.value.0.fs == d.value.1
              && r.value.0.payloadPosition == |binary|
              && r.value.0.payloadSize == CountedLen(ps)
              && r.value.0.preludePosition == |binary| + CountedLen(ps)
              && r.value.0.meter == |Prelude(job, l.vfs)|
  {
    var binary := fs[build.target.binaryPath];
    var job := JobOf(env, build, binary);
    var s2 := StripePhase(env, build, fs);
    BaselineSegments(env, build, fs);
    RunStripes(job, s2, binary);
    match DispatchAll(env, build, fs, build.backpack.stripes)
    case Err(e) => {
    }
    case Ok((ps, fs1)) => {
      IndexTrack(Ledger(InitVfs(env, build.slash, build.backpack.stripes), 0), ps);
    }
  }

  /** The closure variables once the baseline and the empty segment after
      it were emitted. */
  function StripePhase(env: Env, build: Build, fs: Fs): State
    requires build.target.binaryPath in fs
  {
    Start(env, build, fs).(count := 2, meter := 0, payloadPosition := |fs[build.target.binaryPath]|)
  }

  /** The first two segments: the baseline, then nothing; the stripes
      start from the initial index. */
  lemma BaselineSegments(env: Env, build: Build, fs: Fs)
    requires build.target.binaryPath in fs
    ensures var binary := fs[build.target.binaryPath];
            var job := JobOf(env, build, binary);
            var s2 := StripePhase(env, build, fs);
            && Run(job, Start(env, build, fs), []) == Run(job, s2, binary)
            && KeysReady(job, s2)
            && Flush(job, s2) == Some(Ledger(InitVfs(env, build.slash, build.backpack.stripes), 0))
  {
    var binary := fs[build.target.binaryPath];
    var job := JobOf(env, build, binary);
    var s0 := Start(env, build, fs);
    var s1 := s0.(count := 1, meter := |binary|);
    var s2 := StripePhase(env, build, fs);
    assert Step(job, s0) == Emit(binary, s1);
    assert Step(job, s1) == Emit([], s2);
    assert [] + binary == binary && binary + [] == binary;
  }

  /** The streamed output begins with the baseline, so every marker found
      in the baseline lies inside it. */
  lemma AssembledPrefix(env: Env, build: Build, fs: Fs)
    requires Assemble(env, build, fs).Ok?
    ensures build.target.binaryPath in fs
    ensures var a := Assemble(env, build, fs).value;
            && |fs[build.target.binaryPath]| <= |a.output|
            && a.output[..|fs[build.target.binaryPath]|] == fs[build.target.binaryPath]
            && forall slot: P.Slot :: P.WithinPrefix(a.placeholders.Get(slot), |fs[build.target.binaryPath]|)
  {
    assert build.target.binaryPath in fs;
    var binary := fs[build.target.binaryPath];
    var job := JobOf(env, build, binary);
    BaselineSegments(env, build, fs);
    assert binary <= Run(job, StripePhase(env, build, fs), binary).value.1;
  }

  /** No stripe arrives already marked as skipped. */
  predicate Fresh(stripes: seq<Stripe>)
  {
    forall i :: 0 <= i < |stripes| ==> !stripes[i].skip
  }

  lemma FreshAligned(env: Env, build: Build, fs: Fs)
    requires Fresh(build.backpack.stripes)
    requires DispatchAll(env, build, fs, build.backpack.stripes).Ok?
    ensures Aligned(DispatchAll(env, build, fs, build.backpack.stripes).value.0)
  {
    DispatchAllPieces(env, build, fs, build.backpack.stripes);
  }

  /** With fresh stripes the recorded sizes add up: PAYLOAD_SIZE is the
      payload's length, so PRELUDE_POSITION is where the prelude begins in
      the streamed output, and the prelude fills the rest of it. */
  lemma PreludeWhereRecorded(env: Env, build: Build, fs: Fs)
    requires build.target.binaryPath in fs
    requires Fresh(build.backpack.stripes)
    requires Assemble(env, build, fs).Ok?
    ensures var a := Assemble(env, build, fs).value;
            var pos := a.values.preludePosition;
            && pos + a.values.preludeSize == |a.output|
            && a.values.payloadPosition + a.values.payloadSize == pos
            && a.output[pos..] == Prelude(JobOf(env, build, fs[build.target.binaryPath]), a.vfs)
  {
    AssembleLayout(env, build, fs);
    var ps := DispatchAll(env, build, fs, build.backpack.stripes).value.0;
    FreshAligned(env, build, fs);
    AlignedCountsPayload(ps);
  }

  /** A stripe that arrives marked as skipped still streams its bytes but
      is not counted, so PRELUDE_POSITION then falls short of the prelude. */
  lemma PreSkippedMisplacesPrelude(env: Env, build: Build, fs: Fs, i: nat)
    requires build.target.binaryPath in fs
    requires DispatchAll(env, build, fs, build.backpack.stripes).Ok?
    requires i < |build.backpack.stripes| && build.backpack.stripes[i].skip
    requires DispatchAll(env, build, fs, build.backpack.stripes).value.0[i].bytes != []
    ensures Assemble(env, build, fs).Ok?
    ensures var a := Assemble(env, build, fs).value;
            a.values.preludePosition + a.values.preludeSize < |a.output|
  {
    AssembleLayout(env, build, fs);
    var ps := DispatchAll(env, build, fs, build.backpack.stripes).value.0;
    DispatchAllPieces(env, build, fs, build.backpack.stripes);
    CountedShortOfPayload(ps, i);
  }

  lemma {:induction false} CountedShortOfPayload(ps: seq<Piece>, i: nat)
    requires i < |ps| && !ps[i].counted && ps[i].bytes != []
    ensures CountedLen(ps) < |Payload(ps)|
    decreases |ps|
  {
    CountedWithinPayload(ps[1..]);
    if i > 0 {
      CountedShortOfPayload(ps[1..], i - 1);
    }
  }

  /** In a stream of baseline, aligned payload and prelude, the entry of
      the last counted piece for its path and store, taken relative to the
      baseline's end, covers exactly that piece's bytes. */
  lemma LocateInStream(binary: Bytes, ps: seq<Piece>, prelude: Bytes, vfs0: Vfs, i: nat)
    requires Aligned(ps) && i < |ps| && ps[i].counted
    requires forall j :: i < j < |ps| && ps[j].counted ==> ps[j].snap != ps[i].snap || ps[j].store != ps[i].store
    ensures var out := binary + Payload(ps) + prelude;
            var e := Entry(Index(Ledger(vfs0, 0), ps).vfs, ps[i].snap, ps[i].store);
            && e.Some?
            && |binary| + e.value.offset + e.value.length <= |out|
            && out[|binary| + e.value.offset..][..e.value.length] == ps[i].bytes
  {
    IndexLast(Ledger(vfs0, 0), ps, i);
    PayloadSlice(ps, i);
    var off := CountedLen(ps[..i]);
    var out := binary + Payload(ps) + prelude;
    assert out[|binary| + off..] == Payload(ps)[off..] + prelude;
  }

  /** `AssembleLayout` for a build whose stripes all dispatch. */
  lemma AssembleOk(env: Env, build: Build, fs: Fs)
    requires build.target.binaryPath in fs
    requires DispatchAll(env, build, fs, build.backpack.stripes).Ok?
    ensures Assemble(env, build, fs).Ok?
    ensures var binary := fs[build.target.binaryPath];
            var ps := DispatchAll(env, build, fs, build.backpack.stripes).value.0;
            var a := Assemble(env, build, fs).value;
            && a.vfs == FinalLedger(env, build, ps).vfs
            && a.output == binary + Payload(ps) + Prelude(JobOf(env, build, binary), a.vfs)
            && a.values.payloadPosition == |binary|
  {
    AssembleLayout(env, build, fs);
  }

  /** The stripe condition "no later stripe shares path and store" carries
      over to the pieces. */
  lemma LastAmongPieces(env: Env, build: Build, fs: Fs, i: nat)
    requires DispatchAll(env, build, fs, build.backpack.stripes).Ok?
    requires i < |build.backpack.stripes|
    requires var st := build.backpack.stripes;
             forall j :: i < j < |st| ==>
               SnapOf(env, build.slash, st[j]) != SnapOf(env, build.slash, st[i]) || st[j].store != st[i].store
    ensures var ps := DispatchAll(env, build, fs, build.backpack.stripes).value.0;
            && i < |ps|
            && ps[i].snap == SnapOf(env, build.slash, build.backpack.stripes[i])
            && ps[i].store == build.backpack.stripes[i].store
            && forall j :: i < j < |ps| && ps[j].counted ==> ps[j].snap != ps[i].snap || ps[j].store != ps[i].store
  {
    DispatchAllPieces(env, build, fs, build.backpack.stripes);
  }

  /** With fresh stripes, the index entry of the last stripe for a path
      and store locates that stripe's bytes: at PAYLOAD_POSITION plus the
      recorded offset the streamed output holds exactly them. */
  lemma VfsLocatesContent(env: Env, build: Build, fs: Fs, i: nat)
    requires build.target.binaryPath in fs
    requires Fresh(build.backpack.stripes)
    requires DispatchAll(env, build, fs, build.backpack.stripes).Ok?
    requires i < |build.backpack.stripes|
    requires DispatchAll(env, build, fs, build.backpack.stripes).value.0[i].counted
    requires var st := build.backpack.stripes;
             forall j :: i < j < |st| ==>
               SnapOf(env, build.slash, st[j]) != SnapOf(env, build.slash, st[i]) || st[j].store != st[i].store
    ensures Assemble(env, build, fs).Ok?
    ensures var a := Assemble(env, build, fs).value;
            var ps := DispatchAll(env, build, fs, build.backpack.stripes).value.0;
            var e := Entry(a.vfs, SnapOf(env, build.slash, build.backpack.stripes[i]), build.backpack.stripes[i].store);
            && e.Some?
            && a.values.payloadPosition + e.value.offset + e.value.length <= |a.output|
            && a.output[a.values.payloadPosition + e.value.offset..][..e.value.length] == ps[i].bytes
  {
    AssembleOk(env, build, fs);
    LastAmongPieces(env, build, fs, i);
    FreshAligned(env, build, fs);
    var binary := fs[build.target.binaryPath];
    var ps := DispatchAll(env, build, fs, build.backpack.stripes).value.0;
    var a := Assemble(env, build, fs).value;
    LocateInStream(binary, ps, Prelude(JobOf(env, build, binary), a.vfs), InitVfs(env, build.slash, build.backpack.stripes), i);
  }

  /** Every path the index holds is a stripe's path, and every stripe's
      path is there, skipped or not. */
  lemma VfsPaths(env: Env, build: Build, fs: Fs)
    requires build.target.binaryPath in fs
    requires Assemble(env, build, fs).Ok?
    ensures Assemble(env, build, fs).value.vfs.Keys == SnapSet(env, build.slash, build.backpack.stripes)
  {
    AssembleLayout(env, build, fs);
    var ps := DispatchAll(env, build, fs, build.backpack.stripes).value.0;
    DispatchAllPieces(env, build, fs, build.backpack.stripes);
    var init := Ledger(InitVfs(env, build.slash, build.backpack.stripes), 0);
    IndexKeys(init, ps);
  }

  /** Every store entry in the index was written by a counted stripe with
      that path and store: stripes skipped by the fabricator leave their
      path's inner map as it was. */
  lemma VfsEntriesFromStripes(env: Env, build: Build, fs: Fs, snap: string, store: Store)
    requires build.target.binaryPath in fs
    requires DispatchAll(env, build, fs, build.backpack.stripes).Ok?
    ensures Assemble(env, build, fs).Ok?
    ensures var st := build.backpack.stripes;
            var ps := DispatchAll(env, build, fs, st).value.0;
            Entry(Assemble(env, build, fs).value.vfs, snap, store).Some? ==>
              exists i :: 0 <= i < |st| && ps[i].counted && !st[i].skip && SnapOf(env, build.slash, st[i]) == snap && st[i].store == store
  {
    AssembleOk(env, build, fs);
    LedgerEntriesFromStripes(env, build, fs, snap, store);
  }

  /** `VfsEntriesFromStripes` for the reference ledger. */
  lemma LedgerEntriesFromStripes(env: Env, build: Build, fs: Fs, snap: string, store: Store)
    requires DispatchAll(env, build, fs, build.backpack.stripes).Ok?
    ensures var st := build.backpack.stripes;
            var ps := DispatchAll(env, build, fs, st).value.0;
            Entry(FinalLedger(env, build, ps).vfs, snap, store).Some? ==>
              exists i :: 0 <= i < |st| && ps[i].counted && !st[i].skip && SnapOf(env, build.slash, st[i]) == snap && st[i].store == store
  {
    var st := build.backpack.stripes;
    var ps := DispatchAll(env, build, fs, st).value.0;
    var init := Ledger(InitVfs(env, build.slash, st), 0);
    if Entry(Index(init, ps).vfs, snap, store).Some? {
      assert Entry(init.vfs, snap, store).None?;
      IndexOnlyPieces(init, ps, snap, store);
      var i :| 0 <= i < |ps| && ps[i].counted && ps[i].snap == snap && ps[i].store == store;
      DispatchAllPieces(env, build, fs, st);
      assert 0 <= i < |st| && ps[i].counted && !st[i].skip && SnapOf(env, build.slash, st[i]) == snap && st[i].store == store;
    }
  }

  // ---------------------------------------------------------------------
  // Patching

  /** A number fits its marker exactly when the marker was found and the
      number is below 10 to the marker's length. */
  lemma NumberFits(ph: P.Placeholder, n: nat)
    requires ph.Found? ==> ph.size >= 1
    ensures P.Fits(ph, P.Num(n)) <==> ph.Found? && n < Decimal.Pow10(ph.size)
  {
    if ph.Found? {
      Decimal.TextFits(n, ph.size);
    }
  }

  /** What settling needs: the output is written, opens and closes, and
      every marker was found, is large enough for its value and is written
      without error. */
  predicate Patchable(a: Assembled, faults: Faults)
  {
    && !faults.stream && !faults.open && !faults.close
    && forall slot: P.Slot :: P.SlotSucceeds(a.placeholders, a.values, faults.writes, slot)
  }

  /** Settling succeeds exactly when the assembly is patchable. */
  lemma SettleSucceeds(a: Assembled, output: string, faults: Faults)
    ensures Settle(Ok(a), output, faults).Built? <==> Patchable(a, faults)
  {
    P.InjectAllSucceeds(a.output, a.placeholders, a.values, faults.writes);
  }

  /** The build succeeds exactly when assembly succeeds and its result is
      patchable. */
  lemma ProduceSucceeds(env: Env, build: Build, fs: Fs, faults: Faults)
    ensures Produce(env, build, fs, faults).Built? <==>
      Assemble(env, build, fs).Ok? && Patchable(Assemble(env, build, fs).value, faults)
  {
    var r := Assemble(env, build, fs);
    if r.Ok? {
      SettleSucceeds(r.value, build.target.output, faults);
    }
  }

  /** Patching windows inside the first `n` bytes keeps the length and
      everything from `n` on. */
  lemma SettleKeepsSuffix(a: Assembled, output: string, faults: Faults, n: nat)
    requires Patchable(a, faults)
    requires n <= |a.output|
    requires forall slot: P.Slot :: P.WithinPrefix(a.placeholders.Get(slot), n)
    ensures Settle(Ok(a), output, faults).Built?
    ensures var out := Settle(Ok(a), output, faults).output;
            |out| == |a.output| && out[n..] == a.output[n..]
  {
    SettleSucceeds(a, output, faults);
    P.InjectSeqKeepsSuffix(a.output, a.placeholders, a.values, faults.writes, P.PatchOrder, n);
  }

  /** Patching rewrites only marker windows inside the baseline: the output
      keeps the streamed length, and everything from the payload on is
      exactly what was streamed. */
  lemma PatchKeepsStream(env: Env, build: Build, fs: Fs, faults: Faults)
    requires Assemble(env, build, fs).Ok?
    requires Patchable(Assemble(env, build, fs).value, faults)
    ensures build.target.binaryPath in fs && Produce(env, build, fs, faults).Built?
    ensures var a := Assemble(env, build, fs).value;
            var out := Produce(env, build, fs, faults).output;
            var n := |fs[build.target.binaryPath]|;
            && |out| == |a.output|
            && n <= |a.output|
            && out[n..] == a.output[n..]
  {
    var a := Assemble(env, build, fs).value;
    AssembledPrefix(env, build, fs);
    SettleKeepsSuffix(a, build.target.output, faults, |fs[build.target.binaryPath]|);
  }

  /** With non-overlapping markers, settling leaves each value, padded, in
      its marker's window. */
  lemma SettleWritesValues(a: Assembled, output: string, faults: Faults, slot: P.Slot)
    requires Patchable(a, faults)
    requires forall s: P.Slot :: P.WithinPrefix(a.placeholders.Get(s), |a.output|)
    requires forall s1: P.Slot, s2: P.Slot :: s1 != s2 ==> P.Disjoint(a.placeholders.Get(s1), a.placeholders.Get(s2))
    ensures Settle(Ok(a), output, faults).Built?
    ensures var out := Settle(Ok(a), output, faults).output;
            P.Carries(out, a.placeholders.Get(slot), a.values.Get(slot))
  {
    SettleSucceeds(a, output, faults);
    P.InjectAllWindows(a.output, a.placeholders, a.values, faults.writes, slot);
  }

  /** `SettleWritesValues` for an outcome known only to be the settlement. */
  lemma SettledWindow(r: Outcome, a: Assembled, output: string, faults: Faults, slot: P.Slot)
    requires Patchable(a, faults)
    requires forall s: P.Slot :: P.WithinPrefix(a.placeholders.Get(s), |a.output|)
    requires forall s1: P.Slot, s2: P.Slot :: s1 != s2 ==> P.Disjoint(a.placeholders.Get(s1), a.placeholders.Get(s2))
    requires r == Settle(Ok(a), output, faults)
    ensures r.Built? && P.Carries(r.output, a.placeholders.Get(slot), a.values.Get(slot))
  {
    SettleWritesValues(a, output, faults, slot);
  }

  /** A successful assembly settles as the build, and its markers lie inside
      the streamed output. */
  lemma ProduceSettles(env: Env, build: Build, fs: Fs, faults: Faults)
    requires Assemble(env, build, fs).Ok?
    ensures var a := Assemble(env, build, fs).value;
            && Produce(env, build, fs, faults) == Settle(Ok(a), build.target.output, faults)
            && forall slot: P.Slot :: P.WithinPrefix(a.placeholders.Get(slot), |a.output|)
  {
    AssembledPrefix(env, build, fs);
  }

  /** Settling leaves every byte outside the marker windows as streamed. */
  lemma SettleOutside(a: Assembled, output: string, faults: Faults, i: nat)
    requires Patchable(a, faults)
    requires forall s: P.Slot :: P.WithinPrefix(a.placeholders.Get(s), |a.output|)
    requires i < |a.output|
    requires forall s: P.Slot :: !P.InWindow(a.placeholders.Get(s), i)
    ensures Settle(Ok(a), output, faults).Built?
    ensures |Settle(Ok(a), output, faults).output| == |a.output|
    ensures Settle(Ok(a), output, faults).output[i] == a.output[i]
  {
    SettleSucceeds(a, output, faults);
    P.InjectAllOutside(a.output, a.placeholders, a.values, faults.writes, i);
  }

  /** When the markers do not overlap, a successful build carries each
      value, padded, in its marker's window: the bakery table, then the
      four numbers. */
  lemma PatchWritesValues(env: Env, build: Build, fs: Fs, faults: Faults, slot: P.Slot)
    requires Assemble(env, build, fs).Ok?
    requires Patchable(Assemble(env, build, fs).value, faults)
    requires forall s1: P.Slot, s2: P.Slot :: s1 != s2 ==>
      P.Disjoint(Assemble(env, build, fs).value.placeholders.Get(s1), Assemble(env, build, fs).value.placeholders.Get(s2))
    ensures Produce(env, build, fs, faults).Built?
    ensures var a := Assemble(env, build, fs).value;
            P.Carries(Produce(env, build, fs, faults).output, a.placeholders.Get(slot), a.values.Get(slot))
  {
    var a := Assemble(env, build, fs).value;
    ProduceSettles(env, build, fs, faults);
    SettledWindow(Produce(env, build, fs, faults), a, build.target.output, faults, slot);
  }

  /** Patching changes nothing but the five marker windows: every other
      byte of the output is as streamed. */
  lemma PatchOnlyWindows(env: Env, build: Build, fs: Fs, faults: Faults, i: nat)
    requires Assemble(env, build, fs).Ok?
    requires Patchable(Assemble(env, build, fs).value, faults)
    requires i < |Assemble(env, build, fs).value.output|
    requires forall slot: P.Slot :: !P.InWindow(Assemble(env, build, fs).value.placeholders.Get(slot), i)
    ensures Produce(env, build, fs, faults).Built?
    ensures |Produce(env, build, fs, faults).output| == |Assemble(env, build, fs).value.output|
    ensures Produce(env, build, fs, faults).output[i] == Assemble(env, build, fs).value.output[i]
  {
    ProduceSettles(env, build, fs, faults);
    SettleOutside(Assemble(env, build, fs).value, build.target.output, faults, i);
  }
}
