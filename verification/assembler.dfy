/** The stream assembler inside `producer` (lib/producer.js:169-328): the
    per-stripe dispatch rules, the Multistream factory callback as an
    explicit step function over a state record, and the virtual
    filesystem index it keeps. Streams are sequence concatenation; the
    meter's byte count is the length of the segment it last measured. */
module Assembler {
  import opened Common
  import opened Resolver
  import Encoders

  /** A storage kind (`STORE_BLOB`, `STORE_CONTENT`, ...). */
  type Store = nat

  /** A byte region `[offset, length]` relative to the payload start. */
  datatype Region = Region(offset: nat, length: nat)

  /** `vfs[snap][store] = [offset, length]`. */
  type Vfs = map<string, map<Store, Region>>

  /** The collaborators the producer calls but does not define: path
      normalisation, the addon-file test, the two store constants, the
      fabricator, the three JSON serialisations, the project directory
      lookup and the fetch tool. None of them is given any property. */
  datatype Env = Env(
    snapshotify: (string, char) -> string,
    isDotNode: string -> bool,
    storeBlob: Store,
    storeContent: Store,
    fabricate: (seq<Bytes>, nat, string, Bytes) -> Either<Error, Bytes>,
    vfsJson: Vfs -> Bytes,
    pathJson: string -> Bytes,
    symlinksJson: map<string, string> -> Bytes,
    projectDir: string -> Option<string>,
    tool: Tool)

  /** One unit of embedded content. `buffer` and `file` are optional as in
      the source object; `skip` is the flag the producer sets on its copy. */
  datatype Stripe = Stripe(snap: string, store: Store, buffer: Option<Bytes>, file: Option<string>, skip: bool)

  datatype Backpack = Backpack(prelude: Bytes, entrypoint: string, stripes: seq<Stripe>)

  /** The arguments of `producer`; `symLinks` lists the entries of the
      source object in their enumeration order. */
  datatype Build = Build(backpack: Backpack, bakes: seq<Bytes>, slash: char, target: Target, symLinks: seq<(string, string)>)

  // ---------------------------------------------------------------------
  // Set-up before streaming

  function SnapOf(env: Env, slash: char, s: Stripe): string
  {
    env.snapshotify(s.snap, slash)
  }

  /** The normalized paths of all stripes. */
  function SnapSet(env: Env, slash: char, stripes: seq<Stripe>): set<string>
  {
    set i | 0 <= i < |stripes| :: SnapOf(env, slash, stripes[i])
  }

  /** The initial index: an empty inner map for every stripe's path,
      whether or not the stripe will later be skipped. */
  function InitVfs(env: Env, slash: char, stripes: seq<Stripe>): (vfs: Vfs)
    ensures vfs.Keys == SnapSet(env, slash, stripes)
    ensures forall k :: k in vfs ==> vfs[k] == map[]
  {
    map k | k in SnapSet(env, slash, stripes) :: map[]
  }

  /** `snapshotSymLinks`: both ends of every link normalized; when two
      sources normalize alike, the later entry wins. */
  function SnapLinks(env: Env, slash: char, entries: seq<(string, string)>): (links: map<string, string>)
    ensures forall k :: k in links ==> links[k] in LinkTargets(env, slash, entries)
  {
    if entries == [] then map[]
    else
      var last := entries[|entries| - 1];
      SnapLinks(env, slash, entries[..|entries| - 1])[env.snapshotify(last.0, slash) := env.snapshotify(last.1, slash)]
  }

  /** The normalized source of each link entry. */
  function LinkSources(env: Env, slash: char, entries: seq<(string, string)>): set<string>
  {
    set i | 0 <= i < |entries| :: env.snapshotify(entries[i].0, slash)
  }

  /** The normalized target of each link entry. */
  function LinkTargets(env: Env, slash: char, entries: seq<(string, string)>): set<string>
  {
    set i | 0 <= i < |entries| :: env.snapshotify(entries[i].1, slash)
  }

  /** The link table holds exactly the normalized sources. */
  lemma {:induction false} SnapLinksKeys(env: Env, slash: char, entries: seq<(string, string)>)
    ensures SnapLinks(env, slash, entries).Keys == LinkSources(env, slash, entries)
    decreases |entries|
  {
    if entries != [] {
      var n := |entries| - 1;
      SnapLinksKeys(env, slash, entries[..n]);
      var src := env.snapshotify(entries[n].0, slash);
      assert LinkSources(env, slash, entries) == LinkSources(env, slash, entries[..n]) + {src} by {
        forall k | k in LinkSources(env, slash, entries)
          ensures k in LinkSources(env, slash, entries[..n]) + {src}
        {
          var i :| 0 <= i < |entries| && k == env.snapshotify(entries[i].0, slash);
          if i < n {
            assert entries[..n][i] == entries[i];
          }
        }
        forall k | k in LinkSources(env, slash, entries[..n])
          ensures k in LinkSources(env, slash, entries)
        {
          var i :| 0 <= i < n && k == env.snapshotify(entries[..n][i].0, slash);
          assert entries[..n][i] == entries[i];
        }
      }
    }
  }

  /** Each source maps to the normalized target of the last entry with
      that normalized source. */
  lemma {:induction false} SnapLinksLastWins(env: Env, slash: char, entries: seq<(string, string)>, i: nat)
    requires i < |entries|
    requires forall j :: i < j < |entries| ==> env.snapshotify(entries[j].0, slash) != env.snapshotify(entries[i].0, slash)
    ensures env.snapshotify(entries[i].0, slash) in SnapLinks(env, slash, entries)
    ensures SnapLinks(env, slash, entries)[env.snapshotify(entries[i].0, slash)] == env.snapshotify(entries[i].1, slash)
    decreases |entries|
  {
    var n := |entries| - 1;
    var init := entries[..n];
    var last := env.snapshotify(entries[n].0, slash);
    assert SnapLinks(env, slash, entries) == SnapLinks(env, slash, init)[last := env.snapshotify(entries[n].1, slash)];
    if i < n {
      assert init[i] == entries[i];
      assert forall j :: i < j < |init| ==> init[j] == entries[j];
      assert last != env.snapshotify(entries[i].0, slash);
      SnapLinksLastWins(env, slash, init, i);
    }
  }

  // ---------------------------------------------------------------------
  // Stripe dispatch

  /** What one stripe turns into: bytes to stream, a skip (fabricator
      failure, zero bytes) or a build-aborting error; `fs` is the
      filesystem afterwards (the addon resolver may write to it). */
  datatype Dispatched = Streamed(bytes: Bytes, fs: Fs) | Skipped(fs: Fs) | Aborted(error: Error)

  /** The bytes a file stripe streams: the resolved platform build of a
      native addon when resolution succeeds, the file itself otherwise. A
      resolver error is swallowed here. */
  function ReadStripeFile(env: Env, target: Target, fs: Fs, file: string): (d: Dispatched)
    ensures d.Skipped? == false
    ensures d.Aborted? ==> d.error.Io?
    ensures !env.isDotNode(file) ==> (d.Streamed? <==> file in fs)
    ensures !env.isDotNode(file) && d.Streamed? ==> d.bytes == fs[file] && d.fs == fs
  {
    var (fs1, source) :=
      if env.isDotNode(file) then
        var res := Resolve(target, file, fs, env.projectDir, env.tool);
        (res.fs, if res.result.Ok? && res.result.value in res.fs then res.result.value else file)
      else (fs, file);
    if source in fs1 then Streamed(fs1[source], fs1) else Aborted(Io(source))
  }

  /** The body of the stripe branch of the factory callback. */
  function Dispatch(env: Env, build: Build, fs: Fs, s: Stripe): (d: Dispatched)
    ensures d.Skipped? ==> s.buffer.Some? && s.store == env.storeBlob
    ensures s.buffer.Some? ==> !d.Aborted? && d.fs == fs
  {
    if s.buffer.Some? then
      if s.store == env.storeBlob then
        match env.fabricate(build.bakes, build.target.fabricator, SnapOf(env, build.slash, s), s.buffer.value)
        case Left(_) => Skipped(fs)
        case Right(b) => Streamed(b, fs)
      else Streamed(s.buffer.value, fs)
    else if s.file.Some? && s.file.value != "" then
      if s.file.value == build.target.output then
        Aborted(Reported("Trying to take executable into executable", s.file.value))
      else if s.store != env.storeContent then
        Aborted(Assertion("stripe.store must be STORE_CONTENT"))
      else ReadStripeFile(env, build.target, fs, s.file.value)
    else Aborted(Assertion("producer: bad stripe"))
  }

  // ---------------------------------------------------------------------
  // The segment state machine

  /** The index and running payload offset. */
  datatype Ledger = Ledger(vfs: Vfs, track: nat)

  /** The region recorded for a path and store, if any. */
  function Entry(vfs: Vfs, snap: string, store: Store): Option<Region>
  {
    if snap in vfs && store in vfs[snap] then Some(vfs[snap][store]) else None
  }

  /** `vfs[snap][store] = [track, len]; track += len`, or a TypeError when
      the path has no inner map. */
  function Record(env: Env, slash: char, l: Ledger, s: Stripe, len: nat): (r: Option<Ledger>)
    ensures r.Some? <==> SnapOf(env, slash, s) in l.vfs
    ensures r.Some? ==> r.value.vfs.Keys == l.vfs.Keys && r.value.track == l.track + len
    ensures r.Some? ==> Entry(r.value.vfs, SnapOf(env, slash, s), s.store) == Some(Region(l.track, len))
    ensures r.Some? ==> forall snap, store :: snap != SnapOf(env, slash, s) || store != s.store ==>
      Entry(r.value.vfs, snap, store) == Entry(l.vfs, snap, store)
  {
    var snap := SnapOf(env, slash, s);
    if snap !in l.vfs then None
    else
      var inner: map<Store, Region> := l.vfs[snap];
      Some(Ledger(l.vfs[snap := inner[s.store := Region(l.track, len)]], l.track + len))
  }

  /** The inputs fixed for one build. */
  datatype Job = Job(env: Env, build: Build, binary: Bytes, entrypoint: string, symLinks: map<string, string>)

  /** The closure variables of the factory callback. `pending` is the
      producer's own copy of the stripe list, consumed from the front. */
  datatype State = State(
    count: nat,
    pending: seq<Stripe>,
    prev: Option<Stripe>,
    meter: nat,
    track: nat,
    vfs: Vfs,
    payloadPosition: nat,
    payloadSize: nat,
    preludePosition: nat,
    fs: Fs)

  /** Record the previous stripe, unless it was skipped. */
  function Flush(job: Job, st: State): Option<Ledger>
  {
    if st.prev.Some? && !st.prev.value.skip then Record(job.env, job.build.slash, Ledger(st.vfs, st.track), st.prev.value, st.meter)
    else Some(Ledger(st.vfs, st.track))
  }

  /** The final segment: the filled template wrapped in the function header. */
  function Prelude(job: Job, vfs: Vfs): Bytes
  {
    Encoders.WrapPrelude(Encoders.FillPrelude(
      job.build.backpack.prelude,
      job.env.vfsJson(vfs),
      job.env.pathJson(job.entrypoint),
      job.env.symlinksJson(job.symLinks)))
  }

  /** The state after the first pending stripe was handled: the ledger
      flushed, the stripe remembered for the next flush, and the meter at
      the bytes it streamed. */
  function Consume(st: State, l: Ledger, prev: Stripe, meter: nat, fs: Fs): State
    requires st.pending != []
  {
    st.(pending := st.pending[1..], prev := Some(prev), meter := meter, vfs := l.vfs, track := l.track, fs := fs)
  }

  /** Segments still to come: one per pending stripe, plus the ones the
      count has not reached yet. */
  function Measure(st: State): nat
  {
    (if st.count < 3 then 3 - st.count else 0) + |st.pending|
  }

  /** What the factory hands Multistream: a segment, the end, or an error. */
  datatype StepResult = Emit(segment: Bytes, next: State) | Finish | Abort(error: Error)

  /** One call of the factory callback. */
  function Step(job: Job, st: State): (r: StepResult)
    ensures r.Emit? ==> Measure(r.next) == Measure(st) - 1
    ensures r.Emit? ==> r.next.vfs.Keys == st.vfs.Keys && r.next.track >= st.track
    ensures r.Emit? ==> r.next.pending == st.pending || (st.pending != [] && r.next.pending == st.pending[1..])
    ensures r.Finish? <==> st.count >= 3
  {
    if st.count == 0 then
      Emit(job.binary, st.(count := 1, meter := |job.binary|))
    else if st.count == 1 then
      Emit([], st.(count := 2, meter := 0, payloadPosition := st.meter))
    else if st.count == 2 then
      match Flush(job, st)
      case None => Abort(Type)
      case Some(l) =>
        if st.pending != [] then
          var s := st.pending[0];
          match Dispatch(job.env, job.build, st.fs, s)
          case Aborted(e) => Abort(e)
          case Skipped(fs1) => Emit([], Consume(st, l, s.(skip := true), st.meter, fs1))
          case Streamed(b, fs1) => Emit(b, Consume(st, l, s, |b|, fs1))
        else Emit(Prelude(job, l.vfs), Close(job, st, l))
    else Finish
  }

  /** The state after the prelude: the final index, the payload size and
      the prelude's position and size. */
  function Close(job: Job, st: State, l: Ledger): State
  {
    st.(count := 3, meter := |Prelude(job, l.vfs)|, vfs := l.vfs, track := l.track,
        payloadSize := l.track, preludePosition := st.payloadPosition + l.track)
  }

  /** Multistream: pull segments until the factory ends or fails; `out` is
      what has been written so far. */
  function Run(job: Job, st: State, out: Bytes): (r: Result<(State, Bytes)>)
    ensures r.Ok? ==> out <= r.value.1
    ensures r.Ok? ==> r.value.0.count >= 3
    ensures r.Ok? ==> r.value.0.vfs.Keys == st.vfs.Keys
    decreases Measure(st)
  {
    match Step(job, st)
    case Finish => Ok((st, out))
    case Abort(e) => Err(e)
    case Emit(segment, next) => Run(job, next, out + segment)
  }

  // ---------------------------------------------------------------------
  // Reference model of the payload

  /** What one stripe contributed: its normalized path and store, the bytes
      it streamed, and whether the ledger counted them. */
  datatype Piece = Piece(snap: string, store: Store, bytes: Bytes, counted: bool)

  /** Dispatch every stripe in order, threading the filesystem; the first
      abort ends it. */
  function DispatchAll(env: Env, build: Build, fs: Fs, stripes: seq<Stripe>): (r: Result<(seq<Piece>, Fs)>)
    ensures r.Ok? ==> |r.value.0| == |stripes|
    decreases |stripes|
  {
    if stripes == [] then Ok(([], fs))
    else
      var s := stripes[0];
      var head: Result<(Piece, Fs)> :=
        match Dispatch(env, build, fs, s)
        case Aborted(e) => Err(e)
        case Skipped(fs1) => Ok((Piece(SnapOf(env, build.slash, s), s.store, [], false), fs1))
        case Streamed(b, fs1) => Ok((Piece(SnapOf(env, build.slash, s), s.store, b, !s.skip), fs1));
      match head
      case Err(e) => Err(e)
      case Ok((p, fs1)) =>
        match DispatchAll(env, build, fs1, stripes[1..])
        case Err(e) => Err(e)
        case Ok((ps, fs2)) => Ok(([p] + ps, fs2))
  }

  /** The payload: every piece's bytes, in order. */
  function Payload(ps: seq<Piece>): Bytes
  {
    if ps == [] then [] else ps[0].bytes + Payload(ps[1..])
  }

  /** The bytes the ledger counts. */
  function CountedLen(ps: seq<Piece>): nat
  {
    if ps == [] then 0 else (if ps[0].counted then |ps[0].bytes| else 0) + CountedLen(ps[1..])
  }

  /** Enter one counted piece at the running offset. */
  function Put(l: Ledger, p: Piece): Ledger
  {
    var inner: map<Store, Region> := if p.snap in l.vfs then l.vfs[p.snap] else map[];
    Ledger(l.vfs[p.snap := inner[p.store := Region(l.track, |p.bytes|)]], l.track + |p.bytes|)
  }

  /** The ledger after entering the pieces in order. */
  function Index(l: Ledger, ps: seq<Piece>): Ledger
    decreases |ps|
  {
    if ps == [] then l else Index(if ps[0].counted then Put(l, ps[0]) else l, ps[1..])
  }

  /** Every stripe still to be recorded has its inner map. */
  predicate KeysReady(job: Job, st: State)
  {
    && (forall i :: 0 <= i < |st.pending| ==> SnapOf(job.env, job.build.slash, st.pending[i]) in st.vfs)
    && (st.prev.Some? ==> SnapOf(job.env, job.build.slash, st.prev.value) in st.vfs)
  }

  /** Running the state machine from `st` does what the reference says:
      it fails exactly when some dispatch aborts, and otherwise appends the
      pieces' bytes and the prelude, leaving the ledger at `Index` of the
      pieces and the positions derived from it. */
  predicate StripesAgree(job: Job, st: State, out: Bytes)
    requires Flush(job, st).Some?
  {
    var r := Run(job, st, out);
    match DispatchAll(job.env, job.build, st.fs, st.pending)
    case Err(e) => r == Err(e)
    case Ok((ps, fs1)) =>
      var l := Index(Flush(job, st).value, ps);
      && r.Ok?
      && r.value.1 == out + Payload(ps) + Prelude(job, l.vfs)
      && r.value.0.vfs == l.vfs
      && r.value.0.payloadSize == l.track
      && r.value.0.preludePosition == st.payloadPosition + l.track
      && r.value.0.payloadPosition == st.payloadPosition
      && r.value.0.meter == |Prelude(job, l.vfs)|
      && r.value.0.fs == fs1
  }

  lemma Reassociate(a: Bytes, b: Bytes, c: Bytes, d: Bytes)
    ensures a + b + c + d == a + (b + c) + d
  {
  }

  /** The stripe phase of the state machine agrees with the reference. */
  lemma {:induction false} RunStripes(job: Job, st: State, out: Bytes)
    requires st.count == 2
    requires KeysReady(job, st)
    ensures Flush(job, st).Some?
    ensures StripesAgree(job, st, out)
    decreases |st.pending|, 1
  {
    if st.pending == [] {
      RunClosing(job, st, out);
    } else {
      var s := st.pending[0];
      match Dispatch(job.env, job.build, st.fs, s)
      case Aborted(e) => {
      }
      case Skipped(fs1) => {
        RunSkipped(job, st, out, fs1);
      }
      case Streamed(b, fs1) => {
        RunStreamed(job, st, out, b, fs1);
      }
    }
  }

  /** No stripe left: the prelude is the last segment. */
  lemma RunClosing(job: Job, st: State, out: Bytes)
    requires st.count == 2 && st.pending == []
    requires KeysReady(job, st)
    ensures Flush(job, st).Some?
    ensures StripesAgree(job, st, out)
  {
    var l := Flush(job, st).value;
    ClosingRun(job, st, out);
    assert DispatchAll(job.env, job.build, st.fs, []) == Ok(([], st.fs));
    assert Index(l, []) == l;
    assert Payload([]) == [];
  }

  /** The last segment, then the end of the stream. */
  lemma ClosingRun(job: Job, st: State, out: Bytes)
    requires st.count == 2 && st.pending == []
    requires Flush(job, st).Some?
    ensures var l := Flush(job, st).value;
            Run(job, st, out) == Ok((Close(job, st, l), out + Prelude(job, l.vfs)))
  {
    var l := Flush(job, st).value;
    ClosingStep(job, st);
    assert Step(job, Close(job, st, l)) == Finish;
  }

  lemma ClosingStep(job: Job, st: State)
    requires st.count == 2 && st.pending == []
    requires Flush(job, st).Some?
    ensures var l := Flush(job, st).value;
            Step(job, st) == Emit(Prelude(job, l.vfs), Close(job, st, l))
  {
  }

  /** A stripe the fabricator could not produce streams nothing and is
      never recorded. */
  lemma {:induction false} RunSkipped(job: Job, st: State, out: Bytes, fs1: Fs)
    requires st.count == 2 && st.pending != []
    requires KeysReady(job, st)
    requires Dispatch(job.env, job.build, st.fs, st.pending[0]) == Skipped(fs1)
    ensures Flush(job, st).Some?
    ensures StripesAgree(job, st, out)
    decreases |st.pending|, 0
  {
    var l := Flush(job, st).value;
    var s := st.pending[0];
    var next := Consume(st, l, s.(skip := true), st.meter, fs1);
    assert Step(job, st) == Emit([], next);
    assert KeysReady(job, next);
    RunStripes(job, next, out + []);
    assert Flush(job, next) == Some(l);
    assert out + [] == out;
    var p := Piece(SnapOf(job.env, job.build.slash, s), s.store, [], false);
    match DispatchAll(job.env, job.build, fs1, st.pending[1..])
    case Err(e) => {
    }
    case Ok((ps, fs2)) => {
      assert DispatchAll(job.env, job.build, st.fs, st.pending) == Ok(([p] + ps, fs2));
      assert ([p] + ps)[1..] == ps;
      assert Payload([p] + ps) == Payload(ps);
      assert Index(l, [p] + ps) == Index(l, ps);
    }
  }

  /** A streamed stripe's bytes follow the output so far, and it is
      recorded at the next flush under the running offset. */
  lemma {:induction false} RunStreamed(job: Job, st: State, out: Bytes, b: Bytes, fs1: Fs)
    requires st.count == 2 && st.pending != []
    requires KeysReady(job, st)
    requires Dispatch(job.env, job.build, st.fs, st.pending[0]) == Streamed(b, fs1)
    ensures Flush(job, st).Some?
    ensures StripesAgree(job, st, out)
    decreases |st.pending|, 0
  {
    var l := Flush(job, st).value;
    var s := st.pending[0];
    var next := Consume(st, l, s, |b|, fs1);
    StepStreamed(job, st, out, b, fs1);
    assert KeysReady(job, next);
    RunStripes(job, next, out + b);
    var p := Piece(SnapOf(job.env, job.build.slash, s), s.store, b, !s.skip);
    FlushStreamed(job, st, l, b, fs1);
    StreamedTail(job, st, out, b, fs1, l, next, p);
  }

  lemma StepStreamed(job: Job, st: State, out: Bytes, b: Bytes, fs1: Fs)
    requires st.count == 2 && st.pending != [] && Flush(job, st).Some?
    requires Dispatch(job.env, job.build, st.fs, st.pending[0]) == Streamed(b, fs1)
    ensures var next := Consume(st, Flush(job, st).value, st.pending[0], |b|, fs1);
            Run(job, st, out) == Run(job, next, out + b)
  {
  }

  /** The next flush records the streamed stripe unless it arrived skipped. */
  lemma FlushStreamed(job: Job, st: State, l: Ledger, b: Bytes, fs1: Fs)
    requires st.pending != [] && SnapOf(job.env, job.build.slash, st.pending[0]) in l.vfs
    ensures var s := st.pending[0];
            var p := Piece(SnapOf(job.env, job.build.slash, s), s.store, b, !s.skip);
            Flush(job, Consume(st, l, s, |b|, fs1)) == Some(if p.counted then Put(l, p) else l)
  {
  }

  lemma StreamedTail(job: Job, st: State, out: Bytes, b: Bytes, fs1: Fs, l: Ledger, next: State, p: Piece)
    requires st.pending != [] && Flush(job, st) == Some(l)
    requires Dispatch(job.env, job.build, st.fs, st.pending[0]) == Streamed(b, fs1)
    requires next.pending == st.pending[1..] && next.fs == fs1 && next.payloadPosition == st.payloadPosition
    requires p == Piece(SnapOf(job.env, job.build.slash, st.pending[0]), st.pending[0].store, b, !st.pending[0].skip)
    requires Flush(job, next) == Some(if p.counted then Put(l, p) else l)
    requires Run(job, st, out) == Run(job, next, out + b)
    requires StripesAgree(job, next, out + b)
    ensures StripesAgree(job, st, out)
  {
    match DispatchAll(job.env, job.build, fs1, st.pending[1..])
    case Err(e) => {
    }
    case Ok((ps, fs2)) => {
      assert DispatchAll(job.env, job.build, st.fs, st.pending) == Ok(([p] + ps, fs2));
      assert ([p] + ps)[1..] == ps;
      assert Payload([p] + ps) == b + Payload(ps);
      var l' := Index(l, [p] + ps);
      assert l' == Index(if p.counted then Put(l, p) else l, ps);
      Reassociate(out, b, Payload(ps), Prelude(job, l'.vfs));
    }
  }

  // ---------------------------------------------------------------------
  // Dispatch rules

  /** A buffer stripe that is not a blob streams its buffer unchanged. */
  lemma DispatchBuffer(env: Env, build: Build, fs: Fs, s: Stripe)
    requires s.buffer.Some? && s.store != env.storeBlob
    ensures Dispatch(env, build, fs, s) == Streamed(s.buffer.value, fs)
  {
  }

  /** A blob buffer streams the fabricator's output, and is skipped
      exactly when the fabricator fails. */
  lemma DispatchBlob(env: Env, build: Build, fs: Fs, s: Stripe)
    requires s.buffer.Some? && s.store == env.storeBlob
    ensures var f := env.fabricate(build.bakes, build.target.fabricator, SnapOf(env, build.slash, s), s.buffer.value);
            && (Dispatch(env, build, fs, s).Skipped? <==> f.Left?)
            && (f.Right? ==> Dispatch(env, build, fs, s) == Streamed(f.right, fs))
  {
  }

  /** Without a buffer, a stripe whose file is the output path aborts the
      build, whatever else it says. */
  lemma DispatchRejectsOutput(env: Env, build: Build, fs: Fs, s: Stripe)
    requires s.buffer.None? && s.file == Some(build.target.output) && build.target.output != ""
    ensures Dispatch(env, build, fs, s) == Aborted(Reported("Trying to take executable into executable", build.target.output))
  {
  }

  /** A stripe with neither a buffer nor a non-empty file name is an
      assertion failure. */
  lemma DispatchBadStripe(env: Env, build: Build, fs: Fs, s: Stripe)
    requires s.buffer.None? && (s.file.None? || s.file.value == "")
    ensures Dispatch(env, build, fs, s) == Aborted(Assertion("producer: bad stripe"))
  {
  }

  /** An ordinary content file streams its bytes, or aborts when it is
      missing; the filesystem is unchanged. */
  lemma DispatchPlainFile(env: Env, build: Build, fs: Fs, s: Stripe)
    requires s.buffer.None? && s.file.Some? && s.file.value != "" && s.file.value != build.target.output
    requires s.store == env.storeContent && !env.isDotNode(s.file.value)
    ensures s.file.value in fs ==> Dispatch(env, build, fs, s) == Streamed(fs[s.file.value], fs)
    ensures s.file.value !in fs ==> Dispatch(env, build, fs, s) == Aborted(Io(s.file.value))
  {
  }

  /** A content stripe must have the content store. */
  lemma DispatchWrongStore(env: Env, build: Build, fs: Fs, s: Stripe)
    requires s.buffer.None? && s.file.Some? && s.file.value != "" && s.file.value != build.target.output
    requires s.store != env.storeContent
    ensures Dispatch(env, build, fs, s).Aborted? && Dispatch(env, build, fs, s).error.Assertion?
  {
  }

  /** When the platform build of an addon cannot be obtained, the error is
      swallowed and the addon file is streamed as it is on disk afterwards:
      its original bytes, unless the tool failed after overwriting it. Only
      the addon and its backup can have changed. */
  lemma DispatchNativeFallback(env: Env, build: Build, fs: Fs, s: Stripe)
    requires s.buffer.None? && s.file.Some? && s.file.value != "" && s.file.value != build.target.output
    requires s.store == env.storeContent && env.isDotNode(s.file.value)
    requires s.file.value in fs
    requires Resolve(build.target, s.file.value, fs, env.projectDir, env.tool).result.Err?
    ensures var file := s.file.value;
            var fs1 := Resolve(build.target, file, fs, env.projectDir, env.tool).fs;
            && file in fs1
            && Dispatch(env, build, fs, s) == Streamed(fs1[file], fs1)
            && (fs1[file] == fs[file] || CrashedLeaving(build.target, file, env.projectDir, env.tool, fs1[file]))
            && forall p :: p in fs && p != file && p != BackupName(file) ==> p in fs1 && fs1[p] == fs[p]
  {
    FailureOnlyBacksUp(build.target, s.file.value, fs, env.projectDir, env.tool);
  }

  /** A tool run that fails after overwriting the addon file is not
      undone: the bytes it left behind are what the stripe streams. */
  lemma DispatchStreamsCrashLeftovers(env: Env, build: Build, fs: Fs, s: Stripe)
    requires s.buffer.None? && s.file.Some? && s.file.value != "" && s.file.value != build.target.output
    requires s.store == env.storeContent && env.isDotNode(s.file.value)
    requires s.file.value in fs
    requires env.projectDir(s.file.value).Some?
    requires VersionField(build.target.binaryPath).Some? && IsVersionTag(VersionField(build.target.binaryPath).value)
    requires CacheName(s.file.value, build.target.platform, VersionField(build.target.binaryPath).value) !in fs
    requires var run := env.tool(CallFor(build.target, env.projectDir(s.file.value).value, VersionField(build.target.binaryPath).value));
             run.Crashed? && run.leftBehind.Some?
    ensures var run := env.tool(CallFor(build.target, env.projectDir(s.file.value).value, VersionField(build.target.binaryPath).value));
            Dispatch(env, build, fs, s).Streamed? && Dispatch(env, build, fs, s).bytes == run.leftBehind.value
  {
    var file := s.file.value;
    var version := VersionField(build.target.binaryPath).value;
    var call := CallFor(build.target, env.projectDir(file).value, version);
    var nativeFile := CacheName(file, build.target.platform, version);
    assert Resolve(build.target, file, fs, env.projectDir, env.tool) == Fetch(fs, file, nativeFile, call, env.tool);
    CrashLeavesAddon(fs, file, nativeFile, call, env.tool);
    assert Dispatch(env, build, fs, s) == ReadStripeFile(env, build.target, fs, file);
  }

  /** When it can be obtained, the platform build is streamed instead of
      the addon. */
  lemma DispatchNativeResolved(env: Env, build: Build, fs: Fs, s: Stripe)
    requires s.buffer.None? && s.file.Some? && s.file.value != "" && s.file.value != build.target.output
    requires s.store == env.storeContent && env.isDotNode(s.file.value)
    requires Resolve(build.target, s.file.value, fs, env.projectDir, env.tool).result.Ok?
    ensures var r := Resolve(build.target, s.file.value, fs, env.projectDir, env.tool);
            Dispatch(env, build, fs, s) == Streamed(r.fs[r.result.value], r.fs)
  {
  }

  // ---------------------------------------------------------------------
  // The pieces and the index

  /** The pieces follow the stripes one for one: same normalized path and
      store; a counted piece comes from a stripe that was not skipped on
      input, and a stripe not skipped on input is counted unless it
      streamed nothing. */
  lemma {:induction false} DispatchAllPieces(env: Env, build: Build, fs: Fs, stripes: seq<Stripe>)
    requires DispatchAll(env, build, fs, stripes).Ok?
    ensures var ps := DispatchAll(env, build, fs, stripes).value.0;
            forall i :: 0 <= i < |ps| ==>
              && ps[i].snap == SnapOf(env, build.slash, stripes[i])
              && ps[i].store == stripes[i].store
              && (ps[i].counted ==> !stripes[i].skip)
              && (!stripes[i].skip ==> ps[i].counted || ps[i].bytes == [])
    decreases |stripes|
  {
    if stripes != [] {
      var s := stripes[0];
      var fs1 := Dispatch(env, build, fs, s).fs;
      DispatchAllPieces(env, build, fs1, stripes[1..]);
    }
  }

  /** The running offset ends at the counted length. */
  lemma {:induction false} IndexTrack(l: Ledger, ps: seq<Piece>)
    ensures Index(l, ps).track == l.track + CountedLen(ps)
    decreases |ps|
  {
    if ps != [] {
      IndexTrack(if ps[0].counted then Put(l, ps[0]) else l, ps[1..]);
    }
  }

  /** Indexing adds no path beyond the pieces' own. */
  lemma {:induction false} IndexKeys(l: Ledger, ps: seq<Piece>)
    requires forall i :: 0 <= i < |ps| ==> ps[i].snap in l.vfs
    ensures Index(l, ps).vfs.Keys == l.vfs.Keys
    decreases |ps|
  {
    if ps != [] {
      var l1 := if ps[0].counted then Put(l, ps[0]) else l;
      assert l1.vfs.Keys == l.vfs.Keys;
      IndexKeys(l1, ps[1..]);
    }
  }

  /** An entry no counted piece writes keeps its initial state. */
  lemma {:induction false} IndexUntouched(l: Ledger, ps: seq<Piece>, snap: string, store: Store)
    requires forall i :: 0 <= i < |ps| && ps[i].counted ==> ps[i].snap != snap || ps[i].store != store
    ensures Entry(Index(l, ps).vfs, snap, store) == Entry(l.vfs, snap, store)
    decreases |ps|
  {
    if ps != [] {
      var l1 := if ps[0].counted then Put(l, ps[0]) else l;
      assert Entry(l1.vfs, snap, store) == Entry(l.vfs, snap, store);
      IndexUntouched(l1, ps[1..], snap, store);
    }
  }

  /** The entry for a piece's path and store holds the range of the last
      counted piece with that path and store: its offset is the counted
      length before it, its length its byte count. */
  lemma {:induction false} IndexLast(l: Ledger, ps: seq<Piece>, i: nat)
    requires i < |ps| && ps[i].counted
    requires forall j :: i < j < |ps| && ps[j].counted ==> ps[j].snap != ps[i].snap || ps[j].store != ps[i].store
    ensures Entry(Index(l, ps).vfs, ps[i].snap, ps[i].store) == Some(Region(l.track + CountedLen(ps[..i]), |ps[i].bytes|))
    decreases |ps|
  {
    var l1 := if ps[0].counted then Put(l, ps[0]) else l;
    var rest := ps[1..];
    if i == 0 {
      assert forall j :: 0 <= j < |rest| ==> rest[j] == ps[j + 1];
      IndexUntouched(l1, rest, ps[0].snap, ps[0].store);
      assert ps[..0] == [];
    } else {
      assert rest[i - 1] == ps[i];
      assert forall j :: i - 1 < j < |rest| ==> rest[j] == ps[j + 1];
      IndexLast(l1, rest, i - 1);
      assert ps[..i][1..] == rest[..i - 1];
    }
  }

  /** Every entry the index holds beyond the initial ones belongs to some
      counted piece. */
  lemma {:induction false} IndexOnlyPieces(l: Ledger, ps: seq<Piece>, snap: string, store: Store)
    requires Entry(Index(l, ps).vfs, snap, store) != Entry(l.vfs, snap, store)
    ensures exists i :: 0 <= i < |ps| && ps[i].counted && ps[i].snap == snap && ps[i].store == store
  {
    if forall i :: 0 <= i < |ps| && ps[i].counted ==> ps[i].snap != snap || ps[i].store != store {
      IndexUntouched(l, ps, snap, store);
    }
  }

  /** The counted length never exceeds the payload. */
  lemma {:induction false} CountedWithinPayload(ps: seq<Piece>)
    ensures CountedLen(ps) <= |Payload(ps)|
    decreases |ps|
  {
    if ps != [] {
      CountedWithinPayload(ps[1..]);
    }
  }

  /** No piece is left out of the count while carrying bytes. */
  predicate Aligned(ps: seq<Piece>)
  {
    forall i :: 0 <= i < |ps| ==> ps[i].counted || ps[i].bytes == []
  }

  lemma {:induction false} AlignedCountsPayload(ps: seq<Piece>)
    requires Aligned(ps)
    ensures CountedLen(ps) == |Payload(ps)|
    decreases |ps|
  {
    if ps != [] {
      assert Aligned(ps[1..]) by {
        assert forall i :: 0 <= i < |ps[1..]| ==> ps[1..][i] == ps[i + 1];
      }
      AlignedCountsPayload(ps[1..]);
    }
  }

  lemma {:induction false} PayloadSplit(ps: seq<Piece>, i: nat)
    requires i <= |ps|
    ensures Payload(ps) == Payload(ps[..i]) + Payload(ps[i..])
    decreases i
  {
    if i > 0 {
      assert ps[..i][1..] == ps[1..][..i - 1];
      assert ps[i..] == ps[1..][i - 1..];
      PayloadSplit(ps[1..], i - 1);
    } else {
      assert ps[..0] == [] && ps[0..] == ps;
    }
  }

  /** When every piece with bytes is counted, a piece's recorded offset is
      where its bytes sit in the payload. */
  lemma PayloadSlice(ps: seq<Piece>, i: nat)
    requires i < |ps| && Aligned(ps)
    ensures var off := CountedLen(ps[..i]);
            && off + |ps[i].bytes| <= |Payload(ps)|
            && Payload(ps)[off..off + |ps[i].bytes|] == ps[i].bytes
  {
    assert Aligned(ps[..i]) by {
      assert forall j :: 0 <= j < i ==> ps[..i][j] == ps[j];
    }
    AlignedCountsPayload(ps[..i]);
    PayloadSplit(ps, i);
    assert Payload(ps[i..]) == ps[i].bytes + Payload(ps[i + 1..]) by {
      assert ps[i..][1..] == ps[i + 1..];
    }
  }
}
