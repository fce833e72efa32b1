/** The five marker regions of the baseline binary: locating them
    (`discoverPlaceholder(s)`, lib/producer.js:17-54) and overwriting them in
    the finished output (`injectPlaceholder(s)`, lib/producer.js:24-32 and
    56-90). */
module Placeholders {
  import opened Common
  import opened Search
  import Decimal

  datatype Slot = Bakery | PayloadPosition | PayloadSize | PreludePosition | PreludeSize

  /** The order in which the patch writes are chained. */
  const PatchOrder: seq<Slot> := [Bakery, PayloadPosition, PayloadSize, PreludePosition, PreludeSize]

  function RepeatText(s: string, n: nat): (r: string)
    ensures |r| == |s| * n
  {
    if n == 0 then [] else s + RepeatText(s, n - 1)
  }

  /** The literal text of each marker. */
  function PatternText(slot: Slot): string
  {
    match slot
    case Bakery => "\0" + RepeatText("// BAKERY ", 20)
    case PayloadPosition => "// PAYLOAD_POSITION //"
    case PayloadSize => "// PAYLOAD_SIZE //"
    case PreludePosition => "// PRELUDE_POSITION //"
    case PreludeSize => "// PRELUDE_SIZE //"
  }

  function Pattern(slot: Slot): Bytes
  {
    Latin1(PatternText(slot))
  }

  /** Fill byte: NUL for the bakery table, a space for the four numbers. */
  function Padder(slot: Slot): byte
  {
    if slot == Bakery then 0 else 32
  }

  /** The reserved capacity of every marker. */
  lemma PatternSizes()
    ensures |Pattern(Bakery)| == 201
    ensures |Pattern(PayloadPosition)| == 22 && |Pattern(PayloadSize)| == 18
    ensures |Pattern(PreludePosition)| == 22 && |Pattern(PreludeSize)| == 18
  {
  }

  /** `{ notFound: true }` or `{ position, size, padder }`. */
  datatype Placeholder = NotFound | Found(position: nat, size: nat, padder: byte)

  /** `discoverPlaceholder`: the first occurrence of `pattern`, whose
      length is reused as the write budget. */
  function Discover(binary: Bytes, pattern: Bytes, padder: byte): (p: Placeholder)
    ensures p.Found? ==> p.size == |pattern| && p.padder == padder
    ensures p.Found? ==> OccursAt(binary, pattern, p.position)
    ensures p.Found? ==> binary[p.position..p.position + p.size] == pattern
    ensures p.Found? ==> forall j :: 0 <= j < p.position ==> !OccursAt(binary, pattern, j)
    ensures p.NotFound? <==> forall j :: !OccursAt(binary, pattern, j)
  {
    match IndexOf(binary, pattern)
    case None => NotFound
    case Some(position) => Found(position, |pattern|, padder)
  }

  datatype Placeholders = Placeholders(
    bakery: Placeholder,
    payloadPosition: Placeholder,
    payloadSize: Placeholder,
    preludePosition: Placeholder,
    preludeSize: Placeholder)
  {
    function Get(slot: Slot): Placeholder
    {
      match slot
      case Bakery => bakery
      case PayloadPosition => payloadPosition
      case PayloadSize => payloadSize
      case PreludePosition => preludePosition
      case PreludeSize => preludeSize
    }
  }

  /** `discoverPlaceholders`: every marker that is found lies inside the
      binary, holds its own pattern there, and is the first such place. */
  function DiscoverAll(binary: Bytes): (ps: Placeholders)
    ensures forall slot: Slot :: ps.Get(slot) == Discover(binary, Pattern(slot), Padder(slot))
    ensures forall slot: Slot :: WithinPrefix(ps.Get(slot), |binary|)
  {
    Placeholders(
      Discover(binary, Pattern(Bakery), Padder(Bakery)),
      Discover(binary, Pattern(PayloadPosition), Padder(PayloadPosition)),
      Discover(binary, Pattern(PayloadSize), Padder(PayloadSize)),
      Discover(binary, Pattern(PreludePosition), Padder(PreludePosition)),
      Discover(binary, Pattern(PreludeSize), Padder(PreludeSize)))
  }

  /** A patch value: a number (written as decimal text) or a buffer. */
  datatype Value = Num(n: nat) | Buf(bytes: Bytes)

  /** The bytes of a patch value before padding. */
  function Render(v: Value): Bytes
  {
    match v
    case Num(n) => Latin1(Decimal.Text(n))
    case Buf(b) => b
  }

  /** `fs.write(fd, data, 0, data.length, pos)`: a positional write; writing
      past the end of the file extends it, the gap reading as zeros. */
  function WriteAt(file: Bytes, pos: nat, data: Bytes): (r: Bytes)
    ensures |r| == if pos + |data| <= |file| then |file| else pos + |data|
    ensures r[pos..pos + |data|] == data
    ensures forall i :: 0 <= i < |r| && (i < pos || pos + |data| <= i) ==>
      r[i] == (if i < |file| then file[i] else 0)
  {
    var base := if pos <= |file| then file else file + Repeat(0, pos - |file|);
    base[..pos] + data + (if pos + |data| <= |base| then base[pos + |data|..] else [])
  }

  predicate Fits(ph: Placeholder, v: Value)
  {
    ph.Found? && |Render(v)| <= ph.size
  }

  /** The value right-padded to exactly the placeholder's capacity. */
  function Padded(ph: Placeholder, v: Value): (r: Bytes)
    requires Fits(ph, v)
    ensures |r| == ph.size
    ensures r[..|Render(v)|] == Render(v)
    ensures forall i :: |Render(v)| <= i < ph.size ==> r[i] == ph.padder
  {
    Render(v) + Repeat(ph.padder, ph.size - |Render(v)|)
  }

  /** The file holds value `v`, padded to the marker's size, in the
      marker's window. */
  predicate Carries(file: Bytes, ph: Placeholder, v: Value)
  {
    && Fits(ph, v)
    && ph.position + ph.size <= |file|
    && file[ph.position..ph.position + ph.size] == Padded(ph, v)
  }

  /** The file after a write, and the error that stopped it, if any. */
  datatype Patched = Patched(file: Bytes, error: Option<Error>)

  /** `injectPlaceholder`: a missing marker is an assertion failure, a value
      longer than the capacity makes `repeat` throw a RangeError (nothing is
      truncated), `writeFails` is the write itself reporting an error;
      otherwise exactly `size` bytes are written at the marker's position. */
  function Inject(file: Bytes, ph: Placeholder, v: Value, writeFails: bool): (r: Patched)
    ensures r.error.None? <==> Fits(ph, v) && !writeFails
    ensures ph.NotFound? ==> r.error == Some(Assertion("Placeholder for not found"))
    ensures ph.Found? && |Render(v)| > ph.size ==> r.error == Some(Range)
    ensures r.error.Some? ==> r.file == file
    ensures r.error.None? ==> |r.file| >= ph.position + ph.size
    ensures r.error.None? ==>
      && (ph.position + ph.size <= |file| ==> |r.file| == |file|)
      && r.file[ph.position..ph.position + ph.size] == Padded(ph, v)
      && forall i :: 0 <= i < |file| && (i < ph.position || ph.position + ph.size <= i) ==> r.file[i] == file[i]
  {
    if ph.NotFound? then Patched(file, Some(Assertion("Placeholder for not found")))
    else
      var text := Render(v);
      if |text| > ph.size then Patched(file, Some(Range))
      else if writeFails then Patched(file, Some(Io("output")))
      else Patched(WriteAt(file, ph.position, Padded(ph, v)), None)
  }

  /** What `injectPlaceholders` is handed. */
  datatype Values = Values(
    bakery: Bytes,
    payloadPosition: nat,
    payloadSize: nat,
    preludePosition: nat,
    preludeSize: nat)
  {
    function Get(slot: Slot): Value
    {
      match slot
      case Bakery => Buf(bakery)
      case PayloadPosition => Num(payloadPosition)
      case PayloadSize => Num(payloadSize)
      case PreludePosition => Num(preludePosition)
      case PreludeSize => Num(preludeSize)
    }
  }

  /** The writes for `slots`, in order, each one started only when the
      previous one succeeded. */
  function InjectSeq(file: Bytes, phs: Placeholders, vals: Values, faults: set<Slot>, slots: seq<Slot>): (r: Patched)
    ensures |r.file| >= |file|
    ensures r.error.Some? ==> slots != []
    decreases |slots|
  {
    if slots == [] then Patched(file, None)
    else
      var r := Inject(file, phs.Get(slots[0]), vals.Get(slots[0]), slots[0] in faults);
      if r.error.Some? then r else InjectSeq(r.file, phs, vals, faults, slots[1..])
  }

  /** `injectPlaceholders`: the five writes chained in `PatchOrder`;
      `faults` names the writes whose `fs.write` reports an error. */
  function InjectAll(file: Bytes, phs: Placeholders, vals: Values, faults: set<Slot>): (r: Patched)
    ensures |r.file| >= |file|
    ensures r.error.Some? ==> exists slot: Slot :: !SlotSucceeds(phs, vals, faults, slot)
  {
    InjectSeqSucceeds(file, phs, vals, faults, PatchOrder);
    InjectSeq(file, phs, vals, faults, PatchOrder)
  }

  predicate SlotSucceeds(phs: Placeholders, vals: Values, faults: set<Slot>, slot: Slot)
  {
    Fits(phs.Get(slot), vals.Get(slot)) && slot !in faults
  }

  /** The chain succeeds exactly when every one of its writes would. */
  lemma {:induction false} InjectSeqSucceeds(file: Bytes, phs: Placeholders, vals: Values, faults: set<Slot>, slots: seq<Slot>)
    ensures InjectSeq(file, phs, vals, faults, slots).error.None? <==>
      forall k :: 0 <= k < |slots| ==> SlotSucceeds(phs, vals, faults, slots[k])
    decreases |slots|
  {
    if slots != [] {
      var r := Inject(file, phs.Get(slots[0]), vals.Get(slots[0]), slots[0] in faults);
      InjectSeqSucceeds(r.file, phs, vals, faults, slots[1..]);
      if r.error.None? {
        forall k | 0 <= k < |slots[1..]| ensures slots[1..][k] == slots[k + 1] { }
      }
    }
  }

  /** Short-circuit: when the write of `slots[k]` is the first to fail, the
      chain reports exactly its error and the file holds the writes before
      it and nothing else; later writes never run. */
  lemma {:induction false} InjectSeqStopsAtFirstError(file: Bytes, phs: Placeholders, vals: Values, faults: set<Slot>, slots: seq<Slot>, k: nat)
    requires k < |slots|
    requires forall j :: 0 <= j < k ==> SlotSucceeds(phs, vals, faults, slots[j])
    requires !SlotSucceeds(phs, vals, faults, slots[k])
    ensures var before := InjectSeq(file, phs, vals, faults, slots[..k]);
            var r := InjectSeq(file, phs, vals, faults, slots);
            && before.error.None?
            && r.file == before.file
            && r.error == Inject(before.file, phs.Get(slots[k]), vals.Get(slots[k]), slots[k] in faults).error
    decreases k
  {
    var r0 := Inject(file, phs.Get(slots[0]), vals.Get(slots[0]), slots[0] in faults);
    if k > 0 {
      assert slots[..k][1..] == slots[1..][..k - 1];
      InjectSeqStopsAtFirstError(r0.file, phs, vals, faults, slots[1..], k - 1);
    }
  }

  /** A marker window that ends at or before `n`. */
  predicate WithinPrefix(ph: Placeholder, n: nat)
  {
    ph.Found? ==> ph.position + ph.size <= n
  }

  /** Whatever the outcome, patching windows that lie inside the first `n`
      bytes keeps the length and leaves every byte from `n` on untouched:
      the payload and prelude survive even a partial patch. */
  lemma {:induction false} InjectSeqKeepsSuffix(file: Bytes, phs: Placeholders, vals: Values, faults: set<Slot>, slots: seq<Slot>, n: nat)
    requires n <= |file|
    requires forall slot: Slot :: WithinPrefix(phs.Get(slot), n)
    ensures var r := InjectSeq(file, phs, vals, faults, slots);
            |r.file| == |file| && r.file[n..] == file[n..]
    decreases |slots|
  {
    if slots != [] {
      var r0 := Inject(file, phs.Get(slots[0]), vals.Get(slots[0]), slots[0] in faults);
      if r0.error.None? {
        assert r0.file[n..] == file[n..];
        InjectSeqKeepsSuffix(r0.file, phs, vals, faults, slots[1..], n);
      }
    }
  }

  predicate Disjoint(a: Placeholder, b: Placeholder)
  {
    a.Found? && b.Found? ==> a.position + a.size <= b.position || b.position + b.size <= a.position
  }

  predicate InWindow(ph: Placeholder, i: int)
  {
    ph.Found? && ph.position <= i < ph.position + ph.size
  }

  /** Patching windows that lie inside the file keeps its length. */
  lemma {:induction false} InjectSeqLength(file: Bytes, phs: Placeholders, vals: Values, faults: set<Slot>, slots: seq<Slot>)
    requires forall k :: 0 <= k < |slots| ==> WithinPrefix(phs.Get(slots[k]), |file|)
    ensures |InjectSeq(file, phs, vals, faults, slots).file| == |file|
    decreases |slots|
  {
    if slots != [] {
      var r0 := Inject(file, phs.Get(slots[0]), vals.Get(slots[0]), slots[0] in faults);
      if r0.error.None? {
        var rest := slots[1..];
        assert forall k :: 0 <= k < |rest| ==> rest[k] == slots[k + 1];
        InjectSeqLength(r0.file, phs, vals, faults, rest);
      }
    }
  }

  /** Patching never touches a byte outside every window of the chain, and
      keeps the length when the windows lie inside the file. */
  lemma {:induction false} InjectSeqOutside(file: Bytes, phs: Placeholders, vals: Values, faults: set<Slot>, slots: seq<Slot>, i: nat)
    requires forall k :: 0 <= k < |slots| ==> WithinPrefix(phs.Get(slots[k]), |file|)
    requires i < |file|
    requires forall k :: 0 <= k < |slots| ==> !InWindow(phs.Get(slots[k]), i)
    ensures var r := InjectSeq(file, phs, vals, faults, slots);
            |r.file| == |file| && r.file[i] == file[i]
    decreases |slots|
  {
    if slots != [] {
      var r0 := Inject(file, phs.Get(slots[0]), vals.Get(slots[0]), slots[0] in faults);
      if r0.error.None? {
        var rest := slots[1..];
        assert forall k :: 0 <= k < |rest| ==> rest[k] == slots[k + 1];
        InjectSeqOutside(r0.file, phs, vals, faults, rest, i);
      }
    }
  }

  /** The first write of a successful chain survives the later ones when
      their windows are disjoint from it. */
  lemma FirstWindowSurvives(file: Bytes, phs: Placeholders, vals: Values, faults: set<Slot>, slots: seq<Slot>)
    requires slots != []
    requires InjectSeq(file, phs, vals, faults, slots).error.None?
    requires forall j :: 0 <= j < |slots| ==> WithinPrefix(phs.Get(slots[j]), |file|)
    requires forall j :: 0 < j < |slots| ==> Disjoint(phs.Get(slots[0]), phs.Get(slots[j]))
    ensures var r := InjectSeq(file, phs, vals, faults, slots);
            Carries(r.file, phs.Get(slots[0]), vals.Get(slots[0]))
  {
    var ph0 := phs.Get(slots[0]);
    var r0 := Inject(file, ph0, vals.Get(slots[0]), slots[0] in faults);
    var rest := slots[1..];
    SuccessfulStep(file, phs, vals, faults, slots);
    assert Carries(r0.file, ph0, vals.Get(slots[0]));
    assert forall j :: 0 <= j < |rest| ==> Disjoint(ph0, phs.Get(rest[j])) by {
      assert forall j :: 0 <= j < |rest| ==> rest[j] == slots[j + 1];
    }
    WindowUntouched(r0.file, phs, vals, faults, rest, ph0);
  }

  /** A window disjoint from every window of a chain inside the file keeps
      its bytes. */
  lemma WindowUntouched(file: Bytes, phs: Placeholders, vals: Values, faults: set<Slot>, slots: seq<Slot>, ph0: Placeholder)
    requires ph0.Found? && ph0.position + ph0.size <= |file|
    requires forall j :: 0 <= j < |slots| ==> WithinPrefix(phs.Get(slots[j]), |file|)
    requires forall j :: 0 <= j < |slots| ==> Disjoint(ph0, phs.Get(slots[j]))
    ensures var r := InjectSeq(file, phs, vals, faults, slots);
            |r.file| == |file| && r.file[ph0.position..ph0.position + ph0.size] == file[ph0.position..ph0.position + ph0.size]
  {
    var r := InjectSeq(file, phs, vals, faults, slots);
    InjectSeqLength(file, phs, vals, faults, slots);
    forall i | ph0.position <= i < ph0.position + ph0.size
      ensures r.file[i] == file[i]
    {
      InjectSeqOutside(file, phs, vals, faults, slots, i);
    }
  }

  /** When the chain succeeds on pairwise disjoint windows inside the file,
      each window ends up holding its own padded value. */
  lemma {:induction false} InjectSeqWindows(file: Bytes, phs: Placeholders, vals: Values, faults: set<Slot>, slots: seq<Slot>, k: nat)
    requires InjectSeq(file, phs, vals, faults, slots).error.None?
    requires forall j :: 0 <= j < |slots| ==> WithinPrefix(phs.Get(slots[j]), |file|)
    requires forall a, b :: 0 <= a < b < |slots| ==> Disjoint(phs.Get(slots[a]), phs.Get(slots[b]))
    requires k < |slots|
    ensures var r := InjectSeq(file, phs, vals, faults, slots);
            Carries(r.file, phs.Get(slots[k]), vals.Get(slots[k]))
    decreases |slots|, 1
  {
    if k == 0 {
      FirstWindowSurvives(file, phs, vals, faults, slots);
    } else {
      LaterWindow(file, phs, vals, faults, slots, k);
    }
  }

  /** A later window: its value is written by the rest of the chain. */
  lemma {:induction false} LaterWindow(file: Bytes, phs: Placeholders, vals: Values, faults: set<Slot>, slots: seq<Slot>, k: nat)
    requires InjectSeq(file, phs, vals, faults, slots).error.None?
    requires forall j :: 0 <= j < |slots| ==> WithinPrefix(phs.Get(slots[j]), |file|)
    requires forall a, b :: 0 <= a < b < |slots| ==> Disjoint(phs.Get(slots[a]), phs.Get(slots[b]))
    requires 0 < k < |slots|
    ensures var r := InjectSeq(file, phs, vals, faults, slots);
            Carries(r.file, phs.Get(slots[k]), vals.Get(slots[k]))
    decreases |slots|, 0
  {
    var r0 := Inject(file, phs.Get(slots[0]), vals.Get(slots[0]), slots[0] in faults);
    var rest := slots[1..];
    SuccessfulStep(file, phs, vals, faults, slots);
    RestDisjoint(phs, slots);
    assert slots[k] == rest[k - 1];
    InjectSeqWindows(r0.file, phs, vals, faults, rest, k - 1);
  }

  lemma RestDisjoint(phs: Placeholders, slots: seq<Slot>)
    requires slots != []
    requires forall a, b :: 0 <= a < b < |slots| ==> Disjoint(phs.Get(slots[a]), phs.Get(slots[b]))
    ensures forall a, b :: 0 <= a < b < |slots[1..]| ==> Disjoint(phs.Get(slots[1..][a]), phs.Get(slots[1..][b]))
  {
    var rest := slots[1..];
    assert forall j :: 0 <= j < |rest| ==> rest[j] == slots[j + 1];
  }

  /** A successful chain is its first write followed by the rest, and the
      first write keeps the length when its window is inside the file. */
  lemma SuccessfulStep(file: Bytes, phs: Placeholders, vals: Values, faults: set<Slot>, slots: seq<Slot>)
    requires slots != []
    requires InjectSeq(file, phs, vals, faults, slots).error.None?
    requires forall j :: 0 <= j < |slots| ==> WithinPrefix(phs.Get(slots[j]), |file|)
    ensures var r0 := Inject(file, phs.Get(slots[0]), vals.Get(slots[0]), slots[0] in faults);
            && r0.error.None? && |r0.file| == |file|
            && InjectSeq(file, phs, vals, faults, slots) == InjectSeq(r0.file, phs, vals, faults, slots[1..])
            && (forall j :: 0 <= j < |slots[1..]| ==> WithinPrefix(phs.Get(slots[1..][j]), |r0.file|))
  {
    var rest := slots[1..];
    assert forall j :: 0 <= j < |rest| ==> rest[j] == slots[j + 1];
  }

  /** Every slot is patched, and each exactly once. */
  lemma PatchOrderCovers(slot: Slot)
    ensures exists k :: 0 <= k < |PatchOrder| && PatchOrder[k] == slot
    ensures forall a, b :: 0 <= a < b < |PatchOrder| ==> PatchOrder[a] != PatchOrder[b]
  {
    match slot
    case Bakery => assert PatchOrder[0] == slot;
    case PayloadPosition => assert PatchOrder[1] == slot;
    case PayloadSize => assert PatchOrder[2] == slot;
    case PreludePosition => assert PatchOrder[3] == slot;
    case PreludeSize => assert PatchOrder[4] == slot;
  }

  /** `injectPlaceholders` succeeds exactly when each of the five writes
      would succeed on its own. */
  lemma InjectAllSucceeds(file: Bytes, phs: Placeholders, vals: Values, faults: set<Slot>)
    ensures InjectAll(file, phs, vals, faults).error.None? <==>
      forall slot: Slot :: SlotSucceeds(phs, vals, faults, slot)
  {
    var order := PatchOrder;
    InjectSeqSucceeds(file, phs, vals, faults, order);
    if forall k :: 0 <= k < |order| ==> SlotSucceeds(phs, vals, faults, order[k]) {
      forall slot: Slot
        ensures SlotSucceeds(phs, vals, faults, slot)
      {
        PatchOrderCovers(slot);
      }
    }
  }

  /** With non-overlapping markers inside the file, when every write would
      succeed, `injectPlaceholders` succeeds and leaves each value, padded,
      in its window. */
  lemma InjectAllWindows(file: Bytes, phs: Placeholders, vals: Values, faults: set<Slot>, slot: Slot)
    requires forall s: Slot :: SlotSucceeds(phs, vals, faults, s)
    requires forall s: Slot :: WithinPrefix(phs.Get(s), |file|)
    requires forall s1: Slot, s2: Slot :: s1 != s2 ==> Disjoint(phs.Get(s1), phs.Get(s2))
    ensures InjectAll(file, phs, vals, faults).error.None?
    ensures var r := InjectAll(file, phs, vals, faults);
            Carries(r.file, phs.Get(slot), vals.Get(slot))
  {
    InjectAllSucceeds(file, phs, vals, faults);
    PatchOrderCovers(slot);
    WindowsOf(file, phs, vals, faults, PatchOrder, slot);
  }

  /** `InjectSeqWindows` for a chain of distinct slots, addressed by slot. */
  lemma WindowsOf(file: Bytes, phs: Placeholders, vals: Values, faults: set<Slot>, order: seq<Slot>, slot: Slot)
    requires InjectSeq(file, phs, vals, faults, order).error.None?
    requires forall s: Slot :: WithinPrefix(phs.Get(s), |file|)
    requires forall s1: Slot, s2: Slot :: s1 != s2 ==> Disjoint(phs.Get(s1), phs.Get(s2))
    requires forall a, b :: 0 <= a < b < |order| ==> order[a] != order[b]
    requires exists k :: 0 <= k < |order| && order[k] == slot
    ensures var r := InjectSeq(file, phs, vals, faults, order);
            Carries(r.file, phs.Get(slot), vals.Get(slot))
  {
    var k :| 0 <= k < |order| && order[k] == slot;
    OrderedWindows(phs, |file|, order);
    InjectSeqWindows(file, phs, vals, faults, order, k);
  }

  lemma OrderedWindows(phs: Placeholders, n: nat, order: seq<Slot>)
    requires forall s: Slot :: WithinPrefix(phs.Get(s), n)
    requires forall s1: Slot, s2: Slot :: s1 != s2 ==> Disjoint(phs.Get(s1), phs.Get(s2))
    requires forall a, b :: 0 <= a < b < |order| ==> order[a] != order[b]
    ensures forall j :: 0 <= j < |order| ==> WithinPrefix(phs.Get(order[j]), n)
    ensures forall a, b :: 0 <= a < b < |order| ==> Disjoint(phs.Get(order[a]), phs.Get(order[b]))
  {
  }

  /** `injectPlaceholders` leaves every byte outside the five windows as
      it was, and keeps the length when the windows lie inside the file. */
  lemma InjectAllOutside(file: Bytes, phs: Placeholders, vals: Values, faults: set<Slot>, i: nat)
    requires forall s: Slot :: WithinPrefix(phs.Get(s), |file|)
    requires i < |file|
    requires forall s: Slot :: !InWindow(phs.Get(s), i)
    ensures var r := InjectAll(file, phs, vals, faults);
            |r.file| == |file| && r.file[i] == file[i]
  {
    OutsideOf(file, phs, vals, faults, PatchOrder, i);
  }

  lemma OutsideOf(file: Bytes, phs: Placeholders, vals: Values, faults: set<Slot>, order: seq<Slot>, i: nat)
    requires forall s: Slot :: WithinPrefix(phs.Get(s), |file|)
    requires i < |file|
    requires forall s: Slot :: !InWindow(phs.Get(s), i)
    ensures var r := InjectSeq(file, phs, vals, faults, order);
            |r.file| == |file| && r.file[i] == file[i]
  {
    InjectSeqOutside(file, phs, vals, faults, order, i);
  }
}
