/** The knowledge-base chunking rule of chatbot.py: split the pasted text on
    every blank line ("\n\n"), strip each fragment, drop the empty ones; and
    the "\n\n" join that turns retrieved chunks back into one context text. */
module Paragraphs {
  import opened Whitespace

  /** The paragraph separator, on both the split and the join side. */
  const Sep: string := "\n\n"

  /** A separator starts at position `k` of `s`. */
  predicate SepAt(s: string, k: int) {
    0 <= k < |s| - 1 && s[k] == '\n' && s[k + 1] == '\n'
  }

  /** `"\n\n" in s`. */
  predicate HasSep(s: string) {
    exists k :: 0 <= k < |s| && SepAt(s, k)
  }

  predicate EndsWithNewline(s: string) {
    |s| > 0 && s[|s| - 1] == '\n'
  }

  /** `s.split("\n\n")`: scanning left to right, a separator that starts at
      the current position is cut out and ends the current fragment;
      otherwise the current character joins the current fragment. */
  function Split(s: string): (fs: seq<string>)
    ensures |fs| >= 1
    decreases |s|
  {
    if |s| < 2 then [s]
    else if s[0] == '\n' && s[1] == '\n' then [""] + Split(s[2..])
    else
      var rest := Split(s[1..]);
      [[s[0]] + rest[0]] + rest[1..]
  }

  /** `"\n\n".join(parts)`. */
  function Join(parts: seq<string>): string
    decreases |parts|
  {
    if |parts| == 0 then ""
    else if |parts| == 1 then parts[0]
    else parts[0] + Sep + Join(parts[1..])
  }

  /** `s.count("\n\n")`: non-overlapping occurrences, counted left to right. */
  function SepCount(s: string): nat
    decreases |s|
  {
    if |s| < 2 then 0
    else if s[0] == '\n' && s[1] == '\n' then 1 + SepCount(s[2..])
    else SepCount(s[1..])
  }

  /** `chunk.strip()` for every fragment, in order. */
  function StripEach(fragments: seq<string>): seq<string> {
    seq(|fragments|, k requires 0 <= k < |fragments| => Strip(fragments[k]))
  }

  /** The comprehension's `if chunk.strip()`: keep the non-empty strings,
      in order. */
  function DropEmpty(ss: seq<string>): seq<string>
    decreases |ss|
  {
    if ss == [] then []
    else (if ss[0] != [] then [ss[0]] else []) + DropEmpty(ss[1..])
  }

  /** `[chunk.strip() for chunk in text.split('\n\n') if chunk.strip()]`. */
  function Chunks(text: string): seq<string> {
    DropEmpty(StripEach(Split(text)))
  }

  /** A chunk as the rule produces it: non-empty, trimmed, no blank line. */
  predicate IsChunk(c: string) {
    c != [] && Trimmed(c) && !HasSep(c)
  }

  /** The shape of a split: no fragment holds a separator, and no fragment
      but the last ends with '\n' (else the separator would have been found
      one character earlier). */
  predicate SplitShaped(fs: seq<string>) {
    |fs| >= 1
    && (forall k :: 0 <= k < |fs| ==> !HasSep(fs[k]))
    && (forall k :: 0 <= k < |fs| - 1 ==> !EndsWithNewline(fs[k]))
  }

  // ---------------------------------------------------------------------
  // Split and Join are inverse to each other.

  /** Joining the fragments of a split gives the text back. */
  lemma {:induction false} JoinSplit(s: string)
    ensures Join(Split(s)) == s
    decreases |s|
  {
    if |s| < 2 {
    } else if s[0] == '\n' && s[1] == '\n' {
      JoinSplit(s[2..]);
      assert Split(s) == [""] + Split(s[2..]);
      assert Join(Split(s)) == "" + Sep + Join(Split(s[2..]));
      assert s == Sep + s[2..];
    } else {
      var rest := Split(s[1..]);
      JoinSplit(s[1..]);
      JoinConsFirst(s[0], rest);
      assert s == [s[0]] + s[1..];
    }
  }

  /** Prepending a character to the first part prepends it to the join. */
  lemma {:induction false} JoinConsFirst(c: char, parts: seq<string>)
    requires |parts| >= 1
    ensures Join([[c] + parts[0]] + parts[1..]) == [c] + Join(parts)
  {
    var head := [c] + parts[0];
    var ps := [head] + parts[1..];
    assert |ps| == |parts| && ps[0] == head;
    if |parts| > 1 {
      assert ps[1..] == parts[1..];
      var tail := Join(parts[1..]);
      calc {
        Join(ps);
        head + Sep + tail;
        [c] + (parts[0] + Sep + tail);
        [c] + Join(parts);
      }
    }
  }

  /** Every split has the shape of a split. */
  lemma {:induction false} SplitIsShaped(s: string)
    ensures SplitShaped(Split(s))
    decreases |s|
  {
    if |s| < 2 {
      assert !HasSep(s);
    } else if s[0] == '\n' && s[1] == '\n' {
      SplitIsShaped(s[2..]);
      var fs := Split(s);
      assert fs == [""] + Split(s[2..]);
      forall k | 0 <= k < |fs| ensures !HasSep(fs[k]) {
        if k > 0 { assert fs[k] == Split(s[2..])[k - 1]; }
      }
      forall k | 0 <= k < |fs| - 1 ensures !EndsWithNewline(fs[k]) {
        if k > 0 { assert fs[k] == Split(s[2..])[k - 1]; }
      }
    } else {
      var rest := Split(s[1..]);
      SplitIsShaped(s[1..]);
      FirstFragmentIsPrefix(s[1..]);
      var fs := Split(s);
      var first := [s[0]] + rest[0];
      assert fs == [first] + rest[1..];
      assert rest[0] != [] ==> rest[0][0] == s[1];
      NoSepCons(s[0], rest[0]);
      assert |fs| > 1 ==> !EndsWithNewline(first) by {
        if |fs| > 1 && |rest[0]| == 0 {
          FirstFragmentBeforeSep(s[1..]);
        }
      }
      forall k | 0 <= k < |fs| ensures !HasSep(fs[k]) {
        if k > 0 { assert fs[k] == rest[k]; }
      }
      forall k | 0 <= k < |fs| - 1 ensures !EndsWithNewline(fs[k]) {
        if k > 0 { assert fs[k] == rest[k]; }
      }
    }
  }

  /** The first fragment of a split is a prefix of the text. */
  lemma {:induction false} FirstFragmentIsPrefix(s: string)
    ensures |Split(s)[0]| <= |s| && Split(s)[0] == s[..|Split(s)[0]|]
    decreases |s|
  {
    if |s| >= 2 && !(s[0] == '\n' && s[1] == '\n') {
      FirstFragmentIsPrefix(s[1..]);
    }
  }

  /** When there is more than one fragment, the first one is followed by a
      separator in the text. */
  lemma {:induction false} FirstFragmentBeforeSep(s: string)
    requires |Split(s)| > 1
    ensures |Split(s)[0]| + 2 <= |s|
    ensures s[|Split(s)[0]|] == '\n' && s[|Split(s)[0]| + 1] == '\n'
    decreases |s|
  {
    if |s| >= 2 && !(s[0] == '\n' && s[1] == '\n') {
      FirstFragmentBeforeSep(s[1..]);
    }
  }

  /** Dropping the first character cannot create a separator. */
  lemma {:induction false} NoSepTail(s: string)
    requires |s| >= 1 && !HasSep(s)
    ensures !HasSep(s[1..])
  {
    forall k | 0 <= k < |s| - 2
      ensures !SepAt(s[1..], k)
    {
      assert !SepAt(s, k + 1);
      assert s[1..][k] == s[k + 1] && s[1..][k + 1] == s[k + 2];
    }
  }

  /** Prepending a character creates no separator unless it is '\n' and the
      string starts with '\n'. */
  lemma {:induction false} NoSepCons(c: char, s: string)
    requires !HasSep(s)
    requires s == [] || c != '\n' || s[0] != '\n'
    ensures !HasSep([c] + s)
  {
    var t := [c] + s;
    forall k | 0 <= k < |t| - 1 ensures !SepAt(t, k) {
      if k > 0 {
        assert !SepAt(s, k - 1);
        assert t[k] == s[k - 1] && t[k + 1] == s[k];
      }
    }
  }

  /** A text without a separator is a single fragment. */
  lemma {:induction false} SplitNoSep(s: string)
    requires !HasSep(s)
    ensures Split(s) == [s]
    decreases |s|
  {
    if |s| >= 2 {
      assert !SepAt(s, 0);
      NoSepTail(s);
      SplitNoSep(s[1..]);
      assert [s[0]] + s[1..] == s;
    }
  }

  /** A fragment that holds no separator and does not end with '\n' is cut
      off at the separator that follows it. */
  lemma {:induction false} SplitAfterFragment(a: string, t: string)
    requires !HasSep(a) && !EndsWithNewline(a)
    ensures Split(a + Sep + t) == [a] + Split(t)
    decreases |a|
  {
    var s := a + Sep + t;
    if |a| == 0 {
      assert s == Sep + t;
      assert s[2..] == t;
    } else {
      assert s[0] == a[0];
      if |a| == 1 {
        assert s[1] == '\n';
        assert a[0] != '\n';
      } else {
        assert s[1] == a[1];
        assert !SepAt(a, 0);
      }
      var a' := a[1..];
      NoSepTail(a);
      assert !EndsWithNewline(a') by {
        if |a'| > 0 { assert a'[|a'| - 1] == a[|a| - 1]; }
      }
      assert s[1..] == a' + Sep + t;
      SplitAfterFragment(a', t);
      assert [a[0]] + a' == a;
    }
  }

  /** Splitting a join of split-shaped fragments gives the fragments back:
      `Split` is the only decomposition of a text into split-shaped
      fragments that joins back to it. */
  lemma {:induction false} SplitJoin(fs: seq<string>)
    requires SplitShaped(fs)
    ensures Split(Join(fs)) == fs
    decreases |fs|
  {
    if |fs| == 1 {
      SplitNoSep(fs[0]);
    } else {
      assert SplitShaped(fs[1..]) by {
        forall k | 0 <= k < |fs| - 1 ensures !HasSep(fs[1..][k]) {
          assert fs[1..][k] == fs[k + 1];
        }
        forall k | 0 <= k < |fs| - 2 ensures !EndsWithNewline(fs[1..][k]) {
          assert fs[1..][k] == fs[k + 1];
        }
      }
      SplitJoin(fs[1..]);
      assert !HasSep(fs[0]) && !EndsWithNewline(fs[0]);
      SplitAfterFragment(fs[0], Join(fs[1..]));
      assert [fs[0]] + fs[1..] == fs;
    }
  }

  /** Any split-shaped decomposition of `s` that joins back to `s` is its
      split. */
  lemma {:induction false} SplitUnique(s: string, fs: seq<string>)
    requires SplitShaped(fs) && Join(fs) == s
    ensures fs == Split(s)
  {
    SplitJoin(fs);
  }

  /** There is one more fragment than there are separators, as in Python,
      where `len(s.split(sep)) == s.count(sep) + 1`. */
  lemma {:induction false} SplitLength(s: string)
    ensures |Split(s)| == SepCount(s) + 1
    decreases |s|
  {
    if |s| >= 2 {
      if s[0] == '\n' && s[1] == '\n' {
        SplitLength(s[2..]);
      } else {
        SplitLength(s[1..]);
      }
    }
  }

  // ---------------------------------------------------------------------
  // Dropping the empty strings keeps the others, in order.

  /** The positions of the non-empty strings of `ss`. */
  ghost function KeptIndices(ss: seq<string>): seq<nat>
    decreases |ss|
  {
    if ss == [] then []
    else (if ss[0] != [] then [0] else []) + Shifted(KeptIndices(ss[1..]))
  }

  ghost function Shifted(idx: seq<nat>): seq<nat> {
    seq(|idx|, k requires 0 <= k < |idx| => idx[k] + 1)
  }

  /** The k-th kept string is the non-empty string at the k-th kept
      position. */
  lemma {:induction false} KeptIndicesSelect(ss: seq<string>)
    ensures |KeptIndices(ss)| == |DropEmpty(ss)|
    ensures forall k :: 0 <= k < |KeptIndices(ss)| ==>
      KeptIndices(ss)[k] < |ss| && DropEmpty(ss)[k] == ss[KeptIndices(ss)[k]]
      && DropEmpty(ss)[k] != []
    decreases |ss|
  {
    if ss != [] {
      KeptIndicesSelect(ss[1..]);
      var t := KeptIndices(ss[1..]);
      var tc := DropEmpty(ss[1..]);
      var idx := KeptIndices(ss);
      var cs := DropEmpty(ss);
      var d := if ss[0] != [] then 1 else 0;
      assert |idx| == d + |t| && |cs| == d + |tc|;
      forall k | d <= k < |idx| ensures idx[k] < |ss| && cs[k] == ss[idx[k]] && cs[k] != [] {
        assert idx[k] == t[k - d] + 1 && cs[k] == tc[k - d];
        assert ss[1..][t[k - d]] == ss[idx[k]];
      }
    }
  }

  /** Kept positions strictly increase: the kept strings keep their order. */
  lemma {:induction false} KeptIndicesIncrease(ss: seq<string>)
    ensures forall k :: 0 <= k < |KeptIndices(ss)| ==> KeptIndices(ss)[k] < |ss|
    ensures forall k, l :: 0 <= k < l < |KeptIndices(ss)| ==> KeptIndices(ss)[k] < KeptIndices(ss)[l]
    decreases |ss|
  {
    if ss != [] {
      KeptIndicesIncrease(ss[1..]);
      var t := KeptIndices(ss[1..]);
      var idx := KeptIndices(ss);
      var d := if ss[0] != [] then 1 else 0;
      assert forall k :: d <= k < |idx| ==> idx[k] == t[k - d] + 1;
      assert d == 1 ==> idx[0] == 0;
    }
  }

  /** Every non-empty string is kept. */
  lemma {:induction false} KeptIndicesComplete(ss: seq<string>)
    ensures forall j :: 0 <= j < |ss| && ss[j] != [] ==> j in KeptIndices(ss)
    decreases |ss|
  {
    if ss != [] {
      KeptIndicesComplete(ss[1..]);
      var t := KeptIndices(ss[1..]);
      var idx := KeptIndices(ss);
      var d := if ss[0] != [] then 1 else 0;
      forall j | 0 < j < |ss| && ss[j] != [] ensures j in idx {
        assert ss[1..][j - 1] == ss[j];
        var m :| 0 <= m < |t| && t[m] == j - 1;
        assert idx[m + d] == j;
      }
    }
  }

  /** Nothing is kept exactly when every string is empty. */
  lemma {:induction false} DropEmptyNone(ss: seq<string>)
    ensures DropEmpty(ss) == [] <==> forall k :: 0 <= k < |ss| ==> ss[k] == []
    decreases |ss|
  {
    if ss != [] {
      DropEmptyNone(ss[1..]);
      assert forall k :: 0 < k < |ss| ==> ss[k] == ss[1..][k - 1];
    }
  }

  /** Strings that are all non-empty are all kept. */
  lemma {:induction false} DropEmptyNoneEmpty(ss: seq<string>)
    requires forall k :: 0 <= k < |ss| ==> ss[k] != []
    ensures DropEmpty(ss) == ss
    decreases |ss|
  {
    if ss != [] {
      DropEmptyNoneEmpty(ss[1..]);
      assert [ss[0]] + ss[1..] == ss;
    }
  }

  // ---------------------------------------------------------------------
  // What the chunking rule promises.

  /** An infix of a text without a separator has none either. */
  lemma {:induction false} InfixNoSep(s: string, i: nat, j: nat)
    requires i <= j <= |s| && !HasSep(s)
    ensures !HasSep(s[i..j])
  {
    var t := s[i..j];
    forall k | 0 <= k < |t| - 1 ensures !SepAt(t, k) {
      assert !SepAt(s, i + k);
      assert t[k] == s[i + k] && t[k + 1] == s[i + k + 1];
    }
  }

  /** Stripping a fragment cannot create a separator. */
  lemma {:induction false} StripNoSep(f: string)
    requires !HasSep(f)
    ensures !HasSep(Strip(f))
  {
    InfixNoSep(f, StripStart(f), StripStop(f));
  }

  /** Stripping every fragment and dropping the empty results keeps the
      others in order: entry k comes from fragment `KeptIndices(..)[k]`,
      those positions increase, and every fragment with a non-empty strip
      is used. */
  lemma {:induction false} StripDropOrder(fs: seq<string>)
    ensures var ss := StripEach(fs); var idx := KeptIndices(ss); var cs := DropEmpty(ss);
      |idx| == |cs|
      && (forall k :: 0 <= k < |idx| ==> idx[k] < |fs| && cs[k] == Strip(fs[idx[k]]))
      && (forall k, l :: 0 <= k < l < |idx| ==> idx[k] < idx[l])
      && (forall j :: 0 <= j < |fs| && Strip(fs[j]) != [] ==> j in idx)
  {
    var ss := StripEach(fs);
    KeptIndicesSelect(ss);
    KeptIndicesIncrease(ss);
    KeptIndicesComplete(ss);
  }

  /** The chunks are the stripped fragments of the split that do not strip
      to "": chunk k is the strip of fragment `KeptIndices(..)[k]`. */
  lemma {:induction false} ChunksFromFragments(text: string)
    ensures var fs := Split(text); var idx := KeptIndices(StripEach(fs)); var cs := Chunks(text);
      |idx| == |cs|
      && (forall k :: 0 <= k < |idx| ==> idx[k] < |fs| && cs[k] == Strip(fs[idx[k]]))
      && (forall k, l :: 0 <= k < l < |idx| ==> idx[k] < idx[l])
  {
    StripDropOrder(Split(text));
  }

  /** The chunks follow the order of their fragments in the text, and no
      fragment with a non-empty strip is skipped. */
  lemma {:induction false} ChunksInOrder(text: string)
    ensures var fs := Split(text); var idx := KeptIndices(StripEach(fs));
      (forall k, l :: 0 <= k < l < |idx| ==> idx[k] < idx[l])
      && (forall j :: 0 <= j < |fs| && Strip(fs[j]) != [] ==> j in idx)
  {
    StripDropOrder(Split(text));
  }

  /** Stripping separator-free fragments and dropping the empty results
      yields chunks. */
  lemma {:induction false} StripDropChunks(fs: seq<string>)
    requires forall k :: 0 <= k < |fs| ==> !HasSep(fs[k])
    ensures forall k :: 0 <= k < |DropEmpty(StripEach(fs))| ==> IsChunk(DropEmpty(StripEach(fs))[k])
  {
    var ss := StripEach(fs);
    var cs := DropEmpty(ss);
    var idx := KeptIndices(ss);
    KeptIndicesSelect(ss);
    forall k | 0 <= k < |cs| ensures IsChunk(cs[k]) {
      StripNoSep(fs[idx[k]]);
    }
  }

  /** Every chunk is non-empty, is its own strip (so it has no leading or
      trailing whitespace), and contains no blank-line separator. */
  lemma {:induction false} ChunksWellFormed(text: string)
    ensures forall k :: 0 <= k < |Chunks(text)| ==>
      IsChunk(Chunks(text)[k]) && Strip(Chunks(text)[k]) == Chunks(text)[k]
  {
    SplitIsShaped(text);
    StripDropChunks(Split(text));
    var cs := Chunks(text);
    forall k | 0 <= k < |cs| ensures Strip(cs[k]) == cs[k] {
      StripTrimmed(cs[k]);
    }
  }

  lemma {:induction false} DropEmptyLength(ss: seq<string>)
    ensures |DropEmpty(ss)| <= |ss|
    decreases |ss|
  {
    if ss != [] {
      DropEmptyLength(ss[1..]);
    }
  }

  /** There are at most as many chunks as separators plus one. */
  lemma {:induction false} ChunkCount(text: string)
    ensures |Chunks(text)| <= SepCount(text) + 1
  {
    DropEmptyLength(StripEach(Split(text)));
    SplitLength(text);
  }

  /** A text with no blank line gives its strip as the one chunk, or no
      chunk when it strips to "". */
  lemma {:induction false} ChunksNoSep(text: string)
    requires !HasSep(text)
    ensures Chunks(text) == if Strip(text) == [] then [] else [Strip(text)]
  {
    SplitNoSep(text);
    var x := Strip(text);
    assert StripEach([text]) == [x];
    assert DropEmpty([x]) == (if x != [] then [x] else []) + DropEmpty([x][1..]);
    assert [x][1..] == [];
  }

  /** Every fragment in `fs` is whitespace. */
  predicate AllSpaceFragments(fs: seq<string>) {
    forall k :: 0 <= k < |fs| ==> AllSpace(fs[k])
  }

  lemma {:induction false} AllSpaceCons(c: char, s: string)
    ensures AllSpace([c] + s) <==> IsSpace(c) && AllSpace(s)
  {
    var t := [c] + s;
    assert t[0] == c;
    assert forall k :: 0 <= k < |s| ==> t[k + 1] == s[k];
  }

  lemma {:induction false} AllSpaceFragmentsCons(f: string, fs: seq<string>)
    ensures AllSpaceFragments([f] + fs) <==> AllSpace(f) && AllSpaceFragments(fs)
  {
    var t := [f] + fs;
    assert t[0] == f;
    assert forall k :: 0 <= k < |fs| ==> t[k + 1] == fs[k];
  }

  /** A text is whitespace exactly when all of its fragments are. */
  lemma {:induction false} SplitAllSpace(s: string)
    ensures AllSpace(s) <==> AllSpaceFragments(Split(s))
    decreases |s|
  {
    if |s| < 2 {
    } else if s[0] == '\n' && s[1] == '\n' {
      SplitAllSpace(s[2..]);
      AllSpaceFragmentsCons("", Split(s[2..]));
      AllSpaceCons(s[1], s[2..]);
      AllSpaceCons(s[0], s[1..]);
      assert s == [s[0]] + ([s[1]] + s[2..]);
    } else {
      var rest := Split(s[1..]);
      SplitAllSpace(s[1..]);
      AllSpaceCons(s[0], s[1..]);
      assert s == [s[0]] + s[1..];
      AllSpaceCons(s[0], rest[0]);
      AllSpaceFragmentsCons([s[0]] + rest[0], rest[1..]);
      AllSpaceFragmentsCons(rest[0], rest[1..]);
      assert [rest[0]] + rest[1..] == rest;
    }
  }

  /** The rule yields no chunk exactly when the text is all whitespace; the
      save action then reports "Added 0 chunks". */
  lemma {:induction false} ChunksEmpty(text: string)
    ensures Chunks(text) == [] <==> AllSpace(text)
  {
    var fs := Split(text);
    var ss := StripEach(fs);
    DropEmptyNone(ss);
    SplitAllSpace(text);
    assert forall k :: 0 <= k < |fs| ==> (ss[k] == [] <==> AllSpace(fs[k]));
  }

  /** A blank line of three newlines leaves the extra '\n' at the head of
      the next fragment. */
  lemma {:induction false} SplitExtraNewline(a: string, c: string)
    requires IsChunk(a) && IsChunk(c)
    ensures Split(a + "\n\n\n" + c) == [a, "\n" + c]
  {
    var t := "\n" + c;
    NoSepCons('\n', c);
    SplitNoSep(t);
    SplitAfterFragment(a, t);
    assert a + Sep + t == a + "\n\n\n" + c;
  }

  /** Stripping removes a '\n' in front of a chunk. */
  lemma {:induction false} StripNewlineHead(c: string)
    requires IsChunk(c)
    ensures Strip("\n" + c) == c
  {
    var t := "\n" + c;
    assert IsSpace(t[0]) && t[1..|t|] == c;
    StripUnique(t, 1, |t|);
  }

  /** A blank line of three newlines separates paragraphs like one of two:
      the strip removes the extra '\n' the split leaves behind. */
  lemma {:induction false} ChunksExtraNewline(a: string, c: string)
    requires IsChunk(a) && IsChunk(c)
    ensures Chunks(a + "\n\n\n" + c) == [a, c]
  {
    var t := "\n" + c;
    SplitExtraNewline(a, c);
    StripNewlineHead(c);
    StripTrimmed(a);
    var ss := StripEach([a, t]);
    assert ss[0] == a && ss[1] == c;
    assert ss == [a, c];
    DropEmptyNoneEmpty([a, c]);
  }

  /** Round trip: chunking the "\n\n"-join of chunks gives the same chunks. */
  lemma {:induction false} ChunksJoin(cs: seq<string>)
    requires forall k :: 0 <= k < |cs| ==> IsChunk(cs[k])
    ensures Chunks(Join(cs)) == cs
  {
    if cs == [] {
      assert Split(Join(cs)) == [""];
      assert StripEach([""]) == [""];
    } else {
      ChunksAreSplitShaped(cs);
      SplitJoin(cs);
      var ss := StripEach(cs);
      forall k | 0 <= k < |cs| ensures ss[k] == cs[k] {
        StripTrimmed(cs[k]);
      }
      assert ss == cs;
      DropEmptyNoneEmpty(cs);
    }
  }

  /** A non-empty list of chunks has the shape of a split. */
  lemma {:induction false} ChunksAreSplitShaped(cs: seq<string>)
    requires |cs| >= 1
    requires forall k :: 0 <= k < |cs| ==> IsChunk(cs[k])
    ensures SplitShaped(cs)
  {
    forall k | 0 <= k < |cs| - 1 ensures !EndsWithNewline(cs[k]) {
      var c := cs[k];
      assert IsChunk(c);
      assert !IsSpace(c[|c| - 1]);
    }
  }
}
