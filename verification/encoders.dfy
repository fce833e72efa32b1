/** The small pure encoders of the producer: the NUL-delimited bakery table
    (`makeBakeryValueFromBakes`), literal first-occurrence substitution
    (`replaceDollarWise`) and the function-header wrapper around the
    prelude (`makePreludeBufferFromPrelude`). */
module Encoders {
  import opened Common
  import opened Search

  // ---------------------------------------------------------------------
  // Bakery table

  /** Each name followed by one NUL byte. */
  function Terminated(bakes: seq<Bytes>): Bytes
  {
    if bakes == [] then [] else bakes[0] + [0] + Terminated(bakes[1..])
  }

  /** Total size of the table entries: every name plus its terminator. */
  function Footprint(bakes: seq<Bytes>): nat
  {
    if bakes == [] then 0 else Footprint(bakes[..|bakes| - 1]) + |bakes[|bakes| - 1]| + 1
  }

  /** `makeBakeryValueFromBakes`: no bakes give an empty value; otherwise
      name `i` starts after the names before it and their terminators, is
      followed by a NUL, and one more NUL closes the table. */
  function BakeryValue(bakes: seq<Bytes>): (r: Bytes)
    ensures bakes == [] ==> r == []
    ensures bakes != [] ==> |r| == Footprint(bakes) + 1 && r[|r| - 1] == 0
    ensures forall i :: 0 <= i < |bakes| ==> NameAt(r, bakes, i)
  {
    if bakes == [] then []
    else
      TerminatedLength(bakes);
      TerminatedLayout(bakes);
      Terminated(bakes) + [0]
  }

  /** Name `i` sits in `r` after the names before it and their
      terminators, and is followed by a NUL. */
  predicate NameAt(r: Bytes, bakes: seq<Bytes>, i: nat)
    requires i < |bakes|
  {
    var at := Footprint(bakes[..i]);
    && at + |bakes[i]| < |r|
    && r[at..at + |bakes[i]|] == bakes[i]
    && r[at + |bakes[i]|] == 0
  }

  lemma {:induction false} TerminatedAppend(a: seq<Bytes>, b: seq<Bytes>)
    ensures Terminated(a + b) == Terminated(a) + Terminated(b)
    decreases |a|
  {
    if a == [] {
      assert a + b == b;
    } else {
      assert (a + b)[1..] == a[1..] + b;
      TerminatedAppend(a[1..], b);
    }
  }

  /** Name `i` sits in the terminated names after the ones before it,
      followed by its NUL. */
  lemma TerminatedAt(bakes: seq<Bytes>, i: nat)
    requires i < |bakes|
    ensures NameAt(Terminated(bakes), bakes, i)
  {
    TerminatedSplit(bakes, i);
    TerminatedLength(bakes[..i]);
    SliceAfter(Terminated(bakes[..i]), bakes[i], Terminated(bakes[i + 1..]));
  }

  lemma TerminatedSplit(bakes: seq<Bytes>, i: nat)
    requires i < |bakes|
    ensures Terminated(bakes) == Terminated(bakes[..i]) + (bakes[i] + [0] + Terminated(bakes[i + 1..]))
  {
    var rest := bakes[i..];
    assert bakes[..i] + rest == bakes;
    TerminatedAppend(bakes[..i], rest);
    assert rest[1..] == bakes[i + 1..];
  }

  lemma SliceAfter(pre: Bytes, x: Bytes, rest: Bytes)
    ensures var t := pre + (x + [0] + rest);
            && |pre| + |x| < |t|
            && t[|pre|..|pre| + |x|] == x
            && t[|pre| + |x|] == 0
  {
    var t := pre + (x + [0] + rest);
    assert t[|pre|..] == x + [0] + rest;
  }

  lemma TerminatedLayout(bakes: seq<Bytes>)
    ensures forall i :: 0 <= i < |bakes| ==> NameAt(Terminated(bakes) + [0], bakes, i)
  {
    forall i | 0 <= i < |bakes|
      ensures NameAt(Terminated(bakes) + [0], bakes, i)
    {
      TerminatedAt(bakes, i);
      var at := Footprint(bakes[..i]);
      assert (Terminated(bakes) + [0])[at..at + |bakes[i]|] == Terminated(bakes)[at..at + |bakes[i]|];
    }
  }

  lemma {:induction false} TerminatedLength(bakes: seq<Bytes>)
    ensures |Terminated(bakes)| == Footprint(bakes)
    decreases |bakes|
  {
    if bakes != [] {
      var last := |bakes| - 1;
      if last == 0 {
        assert bakes[..last] == [];
      } else {
        TerminatedLength(bakes[1..]);
        TerminatedLength(bakes[1..][..last - 1]);
        TerminatedLength(bakes[..last]);
        assert bakes[1..][..last - 1] == bakes[..last][1..];
        assert bakes[1..][last - 1] == bakes[last];
      }
    }
  }

  /** Position of the first NUL byte, or the length when there is none. */
  function NulIndex(s: Bytes): (k: nat)
    ensures k <= |s|
    ensures k < |s| ==> s[k] == 0
    ensures forall i :: 0 <= i < k ==> s[i] != 0
  {
    if s == [] || s[0] == 0 then 0 else NulIndex(s[1..]) + 1
  }

  /** How a reader takes the table apart: names up to each NUL, stopping at
      the first empty one (the closing NUL or the padding). */
  function ReadBakery(s: Bytes): seq<Bytes>
    decreases |s|
  {
    var k := NulIndex(s);
    if k == 0 then []
    else if k == |s| then [s]
    else [s[..k]] + ReadBakery(s[k + 1..])
  }

  /** Names a NUL-delimited table can carry: non-empty and NUL-free. */
  predicate Bakeable(bakes: seq<Bytes>)
  {
    forall i :: 0 <= i < |bakes| ==> |bakes[i]| > 0 && forall j :: 0 <= j < |bakes[i]| ==> bakes[i][j] != 0
  }

  lemma {:induction false} ReadTerminated(bakes: seq<Bytes>, tail: Bytes)
    requires Bakeable(bakes)
    requires NulIndex(tail) == 0
    ensures ReadBakery(Terminated(bakes) + tail) == bakes
    decreases |bakes|
  {
    if bakes == [] {
      assert Terminated(bakes) + tail == tail;
    } else {
      var x := bakes[0];
      var rest := Terminated(bakes[1..]) + tail;
      var s := Terminated(bakes) + tail;
      assert s == x + ([0] + rest);
      assert s[|x|] == 0;
      assert forall i :: 0 <= i < |x| ==> s[i] == x[i];
      assert NulIndex(s) == |x|;
      assert s[..|x|] == x;
      assert s[|x| + 1..] == rest;
      ReadTerminated(bakes[1..], tail);
      assert [x] + bakes[1..] == bakes;
    }
  }

  /** Round trip: the table, padded with NULs to any capacity, reads back
      as the list of names. */
  lemma BakeryRoundTrip(bakes: seq<Bytes>, pad: nat)
    requires Bakeable(bakes)
    ensures ReadBakery(BakeryValue(bakes) + Repeat(0, pad)) == bakes
  {
    if bakes == [] {
      assert BakeryValue(bakes) + Repeat(0, pad) == Repeat(0, pad);
    } else {
      ReadTerminated(bakes, [0] + Repeat(0, pad));
      assert BakeryValue(bakes) + Repeat(0, pad) == Terminated(bakes) + ([0] + Repeat(0, pad));
    }
  }

  // ---------------------------------------------------------------------
  // Token substitution

  /** `replaceDollarWise`: `s.replace(token, () => by)`. Only the first
      occurrence is replaced, and because the replacement comes from a
      function, `$` sequences in it are inserted verbatim. */
  function ReplaceFirst(s: Bytes, token: Bytes, with: Bytes): (r: Bytes)
    ensures IndexOf(s, token).None? ==> r == s
    ensures IndexOf(s, token).Some? ==>
      var i := IndexOf(s, token).value;
      && |r| == |s| - |token| + |with|
      && r[..i] == s[..i]
      && r[i..i + |with|] == with
      && r[i + |with|..] == s[i + |token|..]
  {
    match IndexOf(s, token)
    case None => s
    case Some(i) => s[..i] + with + s[i + |token|..]
  }

  /** Putting the token back where the replacement went restores the input:
      the substitution loses nothing else. */
  lemma ReplaceFirstUndo(s: Bytes, token: Bytes, with: Bytes)
    requires IndexOf(s, token).Some?
    ensures var i := IndexOf(s, token).value;
            var r := ReplaceFirst(s, token, with);
            r[..i] + token + r[i + |with|..] == s
  {
    var i := IndexOf(s, token).value;
    assert s == s[..i] + s[i..i + |token|] + s[i + |token|..];
  }

  /** A later occurrence of the token survives the substitution, shifted by
      the difference in length: only the first one is replaced. */
  lemma ReplaceFirstKeepsLater(s: Bytes, token: Bytes, with: Bytes, j: nat)
    requires IndexOf(s, token).Some?
    requires IndexOf(s, token).value + |token| <= j
    requires OccursAt(s, token, j)
    ensures OccursAt(ReplaceFirst(s, token, with), token, j - |token| + |with|)
  {
    var i := IndexOf(s, token).value;
    var r := ReplaceFirst(s, token, with);
    var j' := j - |token| + |with|;
    assert r[i + |with|..] == s[i + |token|..];
    assert r[j'..j' + |token|] == r[i + |with|..][j - i - |token|..j - i];
    assert s[j..j + |token|] == s[i + |token|..][j - i - |token|..j - i];
  }

  // ---------------------------------------------------------------------
  // Prelude

  const VfsToken: Bytes := Latin1("%VIRTUAL_FILESYSTEM%")
  const EntrypointToken: Bytes := Latin1("%DEFAULT_ENTRYPOINT%")
  const SymlinksToken: Bytes := Latin1("%SYMLINKS%")

  /** The three substitutions the producer applies to the prelude template,
      in its order: file system, then entry point, then symbolic links. A
      template without any of the tokens is used as it is; each substitution
      removes at most one token and inserts at most its value. */
  function FillPrelude(template: Bytes, vfsJson: Bytes, entrypointJson: Bytes, symlinksJson: Bytes): (r: Bytes)
    ensures (IndexOf(template, VfsToken).None? && IndexOf(template, EntrypointToken).None? &&
             IndexOf(template, SymlinksToken).None?) ==> r == template
    ensures |r| <= |template| + |vfsJson| + |entrypointJson| + |symlinksJson|
    ensures |r| + |VfsToken| + |EntrypointToken| + |SymlinksToken| >= |template|
  {
    ReplaceFirst(ReplaceFirst(ReplaceFirst(template, VfsToken, vfsJson), EntrypointToken, entrypointJson), SymlinksToken, symlinksJson)
  }

  /** Substituting a token whose first occurrence sits right after `p`. */
  lemma ReplaceFirstAt(p: Bytes, token: Bytes, q: Bytes, with: Bytes)
    requires IndexOf(p + token + q, token) == Some(|p|)
    ensures ReplaceFirst(p + token + q, token, with) == p + with + q
  {
    var s := p + token + q;
    assert s[..|p|] == p;
    assert s[|p| + |token|..] == q;
  }

  /** When each token's first occurrence at its turn is the one the
      template author placed (none hides earlier in the template or in a
      value substituted before it), the three values land exactly in the
      three token slots. */
  lemma FillPreludeInOrder(a: Bytes, b: Bytes, c: Bytes, d: Bytes, v1: Bytes, v2: Bytes, v3: Bytes)
    requires IndexOf(a + VfsToken + (b + EntrypointToken + (c + SymlinksToken + d)), VfsToken) == Some(|a|)
    requires IndexOf((a + v1 + b) + EntrypointToken + (c + SymlinksToken + d), EntrypointToken) == Some(|a + v1 + b|)
    requires IndexOf((a + v1 + b + v2 + c) + SymlinksToken + d, SymlinksToken) == Some(|a + v1 + b + v2 + c|)
    ensures FillPrelude(a + VfsToken + (b + EntrypointToken + (c + SymlinksToken + d)), v1, v2, v3)
         == a + v1 + b + v2 + c + v3 + d
  {
    var rest := b + EntrypointToken + (c + SymlinksToken + d);
    ReplaceFirstAt(a, VfsToken, rest, v1);
    Regroup(a + v1, b, EntrypointToken, c + SymlinksToken + d);
    LastTwo(a + v1 + b, c, d, v2, v3);
  }

  lemma Regroup(p: Bytes, b: Bytes, token: Bytes, q: Bytes)
    ensures p + (b + token + q) == (p + b) + token + q
  {
  }

  lemma LastTwo(p: Bytes, c: Bytes, d: Bytes, v2: Bytes, v3: Bytes)
    requires IndexOf(p + EntrypointToken + (c + SymlinksToken + d), EntrypointToken) == Some(|p|)
    requires IndexOf((p + v2 + c) + SymlinksToken + d, SymlinksToken) == Some(|p + v2 + c|)
    ensures ReplaceFirst(ReplaceFirst(p + EntrypointToken + (c + SymlinksToken + d), EntrypointToken, v2), SymlinksToken, v3)
         == p + v2 + c + v3 + d
  {
    ReplaceFirstAt(p, EntrypointToken, c + SymlinksToken + d, v2);
    Regroup(p + v2, c, SymlinksToken, d);
    ReplaceFirstAt(p + v2 + c, SymlinksToken, d, v3);
  }

  const PreludeHeader: string := "(function(process, require, console, EXECPATH_FD, PAYLOAD_POSITION, PAYLOAD_SIZE) { "
  const PreludeFooter: string := "\n})"

  /** `makePreludeBufferFromPrelude`: the fixed header, the text, then a
      newline and the closing `})`. */
  function WrapPrelude(text: Bytes): (r: Bytes)
    ensures |r| == |PreludeHeader| + |text| + 3
    ensures r[..|PreludeHeader|] == Latin1(PreludeHeader)
    ensures r[|PreludeHeader|..|PreludeHeader| + |text|] == text
    ensures r[|r| - 3..] == Latin1(PreludeFooter)
  {
    Latin1(PreludeHeader) + text + Latin1(PreludeFooter)
  }

  /** Recovers the text from a wrapped prelude buffer. */
  function UnwrapPrelude(r: Bytes): Option<Bytes>
  {
    var h := |PreludeHeader|;
    if |r| >= h + 3 && r[..h] == Latin1(PreludeHeader) && r[|r| - 3..] == Latin1(PreludeFooter)
    then Some(r[h..|r| - 3])
    else None
  }

  lemma UnwrapWrap(text: Bytes)
    ensures UnwrapPrelude(WrapPrelude(text)) == Some(text)
  {
  }
}
