/**
 * Leaf public values as eleven 32-byte Solidity ABI words, and the epoch aggregator's input that
 * carries them.  As in `Wire`, decoding and encoding are proved inverse in both directions.
 */
module EpochWire {
  import opened Primitives
  import opened Wire
  import Policy

  // ----- integer words

  function Zeros(n: nat): (b: Bytes)
    ensures |b| == n
  {
    seq(n, _ => 0)
  }

  function IntWord(n: nat): Word
  {
    ToBytes(n, 32)
  }

  /** `word_u64`: the upper 24 bytes must be zero. */
  function WordU64(w: Word): Option<U64>
  {
    if w[..24] == Zeros(24) then Some(Policy.ReadU64(w[24..])) else None
  }

  lemma {:induction false} ZeroPadded(n: nat, pad: nat, width: nat)
    requires n < Pow2(8 * width)
    ensures ToBytes(n, pad + width) == Zeros(pad) + ToBytes(n, width)
    decreases width, pad
  {
    if width == 0 {
      if pad != 0 {
        ZeroPadded(n, pad - 1, 0);
        assert Zeros(pad) == Zeros(pad - 1) + [0];
      }
    } else {
      Pow2Add(8 * (width - 1), 8);
      assert Pow2(8) == 0x100;
      ZeroPadded(n / 0x100, pad, width - 1);
    }
  }

  /** An ABI integer word is read back exactly when it is the padded big-endian number. */
  lemma {:induction false} WordExactly(w: Word, n: U64)
    ensures WordU64(w) == Some(n) <==> w == IntWord(n)
  {
    WordSizes();
    ZeroPadded(n, 24, 8);
    U64Exactly(n, w[24..]);
    assert w == w[..24] + w[24..];
    TakeExactly(w, 24, Zeros(24), ToBytes(n, 8));
  }

  // ----- words of a fixed-width record

  function WordAt(b: Bytes, k: nat): Word
    requires 32 * k + 32 <= |b|
  {
    b[32 * k..32 * k + 32]
  }

  predicate SameWord(b: Bytes, words: seq<Word>, k: nat)
    requires |b| == 32 * |words| && k < |words|
  {
    WordAt(b, k) == words[k]
  }

  /** Bytes are the words one after another exactly when every 32-byte slice is the word at its place. */
  lemma {:induction false} WordsJoin(b: Bytes, words: seq<Word>)
    requires |b| == 32 * |words|
    ensures b == EncodeWords(words) <==> forall k: nat :: k < |words| ==> SameWord(b, words, k)
  {
    if words != [] {
      var rest := b[32..];
      WordsJoin(rest, words[1..]);
      TakeExactly(b, 32, words[0], EncodeWords(words[1..]));
      TakeExactly(b, 32, WordAt(b, 0), rest);
      forall k: nat | k < |words| - 1
        ensures SameWord(rest, words[1..], k) <==> SameWord(b, words, k + 1)
      {
        assert WordAt(rest, k) == WordAt(b, k + 1);
      }
      if SameWord(b, words, 0) && forall k: nat :: k < |words| - 1 ==> SameWord(rest, words[1..], k) {
        forall k: nat | k < |words|
          ensures SameWord(b, words, k)
        {
          if k > 0 { assert SameWord(rest, words[1..], k - 1); }
        }
      }
    }
  }

  // ----- leaf public values

  datatype LeafValues = LeafValues(
    epochId: U64, oldNullifierRoot: Word, newNullifierRoot: Word, eventBatchDigest: Word, certificateRoot: Word,
    polygonCommitment: Word, nullifier: Word, role: U8, threshold: U32, eventCount: U8, valid: bool)

  function LeafWords(v: LeafValues): (words: seq<Word>)
    ensures |words| == 11
  {
    [IntWord(v.epochId), v.oldNullifierRoot, v.newNullifierRoot, v.eventBatchDigest, v.certificateRoot,
     v.polygonCommitment, v.nullifier, IntWord(v.role), IntWord(v.threshold), IntWord(v.eventCount),
     IntWord(if v.valid then 1 else 0)]
  }

  lemma {:induction false} EncodeWordsLength(words: seq<Word>)
    ensures |EncodeWords(words)| == 32 * |words|
  {
    if words != [] { EncodeWordsLength(words[1..]); }
  }

  /** `abi_decode`: canonical words whose integers fit their declared types. */
  function DecodeLeaf(b: Bytes): Option<LeafValues>
  {
    if |b| != 352 then None
    else
      var role, threshold := WordU64(WordAt(b, 7)), WordU64(WordAt(b, 8));
      var count, valid, epoch := WordU64(WordAt(b, 9)), WordU64(WordAt(b, 10)), WordU64(WordAt(b, 0));
      if role.None? || threshold.None? || count.None? || valid.None? || epoch.None? then None
      else if role.value >= 0x100 || threshold.value >= 0x1_0000_0000 || count.value >= 0x100
          || valid.value > 1 then None
      else Some(LeafValues(epoch.value, WordAt(b, 1), WordAt(b, 2), WordAt(b, 3), WordAt(b, 4), WordAt(b, 5),
                           WordAt(b, 6), role.value, threshold.value, count.value, valid.value == 1))
  }

  lemma {:induction false} ElevenWords(b: Bytes, words: seq<Word>)
    requires |words| == 11 && |b| == 352
    ensures b == EncodeWords(words) <==>
      && WordAt(b, 0) == words[0] && WordAt(b, 1) == words[1] && WordAt(b, 2) == words[2] && WordAt(b, 3) == words[3]
      && WordAt(b, 4) == words[4] && WordAt(b, 5) == words[5] && WordAt(b, 6) == words[6] && WordAt(b, 7) == words[7]
      && WordAt(b, 8) == words[8] && WordAt(b, 9) == words[9] && WordAt(b, 10) == words[10]
  {
    WordsJoin(b, words);
    assert SameWord(b, words, 0) <==> WordAt(b, 0) == words[0];
    assert SameWord(b, words, 1) <==> WordAt(b, 1) == words[1];
    assert SameWord(b, words, 2) <==> WordAt(b, 2) == words[2];
    assert SameWord(b, words, 3) <==> WordAt(b, 3) == words[3];
    assert SameWord(b, words, 4) <==> WordAt(b, 4) == words[4];
    assert SameWord(b, words, 5) <==> WordAt(b, 5) == words[5];
    assert SameWord(b, words, 6) <==> WordAt(b, 6) == words[6];
    assert SameWord(b, words, 7) <==> WordAt(b, 7) == words[7];
    assert SameWord(b, words, 8) <==> WordAt(b, 8) == words[8];
    assert SameWord(b, words, 9) <==> WordAt(b, 9) == words[9];
    assert SameWord(b, words, 10) <==> WordAt(b, 10) == words[10];
  }

  /** Leaf values decode from exactly their own 352 bytes. */
  lemma {:induction false} LeafExactly(b: Bytes, v: LeafValues)
    ensures DecodeLeaf(b) == Some(v) <==> b == EncodeWords(LeafWords(v))
  {
    EncodeWordsLength(LeafWords(v));
    if |b| == 352 {
      ElevenWords(b, LeafWords(v));
      LeafFields(b, v);
    }
  }

  lemma {:induction false} LeafFields(b: Bytes, v: LeafValues)
    requires |b| == 352
    ensures DecodeLeaf(b) == Some(v) <==>
      && WordAt(b, 0) == IntWord(v.epochId) && WordAt(b, 1) == v.oldNullifierRoot && WordAt(b, 2) == v.newNullifierRoot
      && WordAt(b, 3) == v.eventBatchDigest && WordAt(b, 4) == v.certificateRoot && WordAt(b, 5) == v.polygonCommitment
      && WordAt(b, 6) == v.nullifier && WordAt(b, 7) == IntWord(v.role) && WordAt(b, 8) == IntWord(v.threshold)
      && WordAt(b, 9) == IntWord(v.eventCount) && WordAt(b, 10) == IntWord(if v.valid then 1 else 0)
  {
    WordExactly(WordAt(b, 0), v.epochId);
    WordExactly(WordAt(b, 7), v.role);
    WordExactly(WordAt(b, 8), v.threshold);
    WordExactly(WordAt(b, 9), v.eventCount);
    WordExactly(WordAt(b, 10), if v.valid then 1 else 0);
  }

  // ----- the aggregator's input

  datatype Child = LeafChild(bytes: Bytes) | AggregateChild(bytes: Bytes)

  datatype EpochInput = EpochInput(leafVk: Word, aggregateVk: Word, children: seq<Child>)

  /** The integer words the decoder insists on. */
  predicate Canonical(c: Child)
  {
    |c.bytes| == 352 &&
    if c.LeafChild? then DecodeLeaf(c.bytes).Some?
    else
      && WordU64(WordAt(c.bytes, 0)).Some? && WordU64(WordAt(c.bytes, 4)).Some? && WordU64(WordAt(c.bytes, 5)).Some?
      && WordU64(WordAt(c.bytes, 6)).Some? && WordU64(WordAt(c.bytes, 6)).value <= 1
  }

  function EncodeChild(c: Child): Bytes
  {
    [if c.LeafChild? then 0 else 1] + c.bytes
  }

  function EncodeChildren(children: seq<Child>): Bytes
  {
    if children == [] then [] else EncodeChild(children[0]) + EncodeChildren(children[1..])
  }

  function ParseChild(b: Bytes): Option<(Child, Bytes)>
  {
    var kind := Take(b, 1);
    if kind.None? || kind.value.0[0] > 1 then None
    else
      var data := Take(kind.value.1, 352);
      if data.None? then None
      else Some((if kind.value.0[0] == 0 then LeafChild(data.value.0) else AggregateChild(data.value.0), data.value.1))
  }

  lemma {:induction false} ChildExactly(b: Bytes, c: Child, rest: Bytes)
    ensures ParseChild(b) == Some((c, rest)) <==> |c.bytes| == 352 && b == EncodeChild(c) + rest
  {
    var kind: Bytes := [if c.LeafChild? then 0 else 1];
    TakeExactly(b, 1, kind, c.bytes + rest);
    TakeExactly(c.bytes + rest, 352, c.bytes, rest);
    assert EncodeChild(c) + rest == kind + (c.bytes + rest);
    if ParseChild(b) == Some((c, rest)) {
      var first := Take(b, 1).value;
      TakeExactly(b, 1, first.0, first.1);
      TakeExactly(first.1, 352, c.bytes, rest);
      assert first.0 == kind;
    }
  }

  function ParseChildren(b: Bytes, n: nat): Option<(seq<Child>, Bytes)>
    decreases n
  {
    if n == 0 then Some(([], b))
    else
      var first := ParseChild(b);
      if first.None? then None
      else
        var more := ParseChildren(first.value.1, n - 1);
        if more.None? then None else Some(([first.value.0] + more.value.0, more.value.1))
  }

  lemma {:induction false} ChildrenExactly(b: Bytes, n: nat, children: seq<Child>, rest: Bytes)
    ensures ParseChildren(b, n) == Some((children, rest)) <==>
      |children| == n && (forall c :: c in children ==> |c.bytes| == 352) && b == EncodeChildren(children) + rest
    decreases n
  {
    if n == 0 {
      if children == [] { assert EncodeChildren(children) + rest == rest; }
    } else if children != [] {
      var tail := EncodeChildren(children[1..]) + rest;
      ChildExactly(b, children[0], tail);
      assert EncodeChildren(children) + rest == EncodeChild(children[0]) + tail;
      assert children == [children[0]] + children[1..];
      var first := ParseChild(b);
      if first.Some? {
        ChildExactly(b, first.value.0, first.value.1);
        ChildrenExactly(first.value.1, n - 1, children[1..], rest);
      }
    }
  }

  predicate FanInOk(n: nat)
  {
    1 <= n <= 8
  }

  function Encoding(x: EpochInput): Bytes
    requires FanInOk(|x.children|)
  {
    [2] + x.leafVk + x.aggregateVk + [|x.children|] + EncodeChildren(x.children)
  }

  function ParseEpochInput(b: Bytes): Option<EpochInput>
  {
    if |b| < 66 || b[0] != 2 || !FanInOk(b[65]) then None
    else
      var children := ParseChildren(b[66..], b[65]);
      if children.None? || children.value.1 != [] || (exists c | c in children.value.0 :: !Canonical(c)) then None
      else Some(EpochInput(b[1..33], b[33..65], children.value.0))
  }

  lemma {:induction false} EpochParts(b: Bytes, x: EpochInput)
    requires FanInOk(|x.children|)
    ensures b == Encoding(x) <==>
      && |b| >= 66 && b[0] == 2 && b[1..33] == x.leafVk && b[33..65] == x.aggregateVk && b[65] == |x.children|
      && b[66..] == EncodeChildren(x.children)
  {
    if |b| >= 66 { assert b == [b[0]] + b[1..33] + b[33..65] + [b[65]] + b[66..]; }
    var c := Encoding(x);
    assert c[1..33] == x.leafVk && c[33..65] == x.aggregateVk && c[66..] == EncodeChildren(x.children);
  }

  /** An input decodes from exactly its own bytes, and only when every child is canonical. */
  lemma {:induction false} EpochInputExactly(b: Bytes, x: EpochInput)
    ensures ParseEpochInput(b) == Some(x) ==>
        FanInOk(|x.children|) && (forall c :: c in x.children ==> Canonical(c)) && b == Encoding(x)
    ensures FanInOk(|x.children|) && (forall c :: c in x.children ==> Canonical(c)) && b == Encoding(x) ==>
        ParseEpochInput(b) == Some(x)
  {
    if FanInOk(|x.children|) {
      EpochParts(b, x);
      if |b| >= 66 {
        assert EncodeChildren(x.children) + [] == EncodeChildren(x.children);
        ChildrenExactly(b[66..], b[65], x.children, []);
      }
    }
    if ParseEpochInput(b) == Some(x) {
      ChildrenExactly(b[66..], b[65], x.children, []);
      EpochParts(b, x);
    }
  }

  /**
   * Encoding then decoding returns the input exactly when its children are canonical: `encode` itself
   * does not check.
   */
  lemma {:induction false} RoundTripExactly(x: EpochInput)
    requires FanInOk(|x.children|)
    ensures ParseEpochInput(Encoding(x)) == Some(x) <==> forall c :: c in x.children ==> Canonical(c)
  {
    EpochInputExactly(Encoding(x), x);
  }

  /** One round of the decoder: the child at the cursor. */
  method ReadChild(b: Bytes, cursor: nat) returns (r: Option<Child>)
    requires cursor <= |b|
    ensures r.Some? == ParseChild(b[cursor..]).Some?
    ensures r.Some? ==> cursor + 353 <= |b| && ParseChild(b[cursor..]) == Some((r.value, b[cursor + 353..]))
  {
    if cursor >= |b| { return None; }
    var kind := b[cursor];
    if kind > 1 || cursor + 1 + 352 > |b| { return None; }
    var data := b[cursor + 1..cursor + 1 + 352];
    assert b[cursor..][1..][..352] == data && b[cursor..][1..][352..] == b[cursor + 353..];
    return Some(if kind == 0 then LeafChild(data) else AggregateChild(data));
  }

  lemma {:induction false} OneMoreChild(b: Bytes, n: nat, done: seq<Child>)
    requires n > 0
    ensures ParseChild(b).None? ==> ParseChildren(b, n).None?
    ensures ParseChild(b).Some? ==>
      Onto(done, ParseChildren(b, n))
          == Onto(done + [ParseChild(b).value.0], ParseChildren(ParseChild(b).value.1, n - 1))
  {
    if ParseChild(b).Some? { OntoTwice(done, ParseChild(b).value.0, ParseChildren(ParseChild(b).value.1, n - 1)); }
  }

  lemma {:induction false} NothingRead(all: Option<(seq<Child>, Bytes)>)
    ensures Onto([], all) == all
  {
    if all.Some? { assert [] + all.value.0 == all.value.0; }
  }

  /** The cursor loop over the children; `all` is what the remaining bytes parse to. */
  method ReadChildren(b: Bytes, start: nat, n: nat, ghost all: Option<(seq<Child>, Bytes)>)
      returns (r: Option<(seq<Child>, nat)>)
    requires start <= |b| && all == ParseChildren(b[start..], n)
    ensures r.None? ==> all.None? || exists c :: c in all.value.0 && !Canonical(c)
    ensures r.Some? ==> r.value.1 <= |b| && all == Some((r.value.0, b[r.value.1..])) && forall c :: c in r.value.0 ==>
        Canonical(c)
  {
    var cursor: nat := start;
    var children: seq<Child> := [];
    NothingRead(all);
    for i := 0 to n
      invariant cursor <= |b|
      invariant all == Onto(children, ParseChildren(b[cursor..], n - i))
      invariant forall c :: c in children ==> Canonical(c)
    {
      OneMoreChild(b[cursor..], n - i, children);
      var c := ReadChild(b, cursor);
      if c.None? { return None; }
      children := children + [c.value];
      cursor := cursor + 353;
      if !Canonical(c.value) {
        assert c.value in children;
        return None;
      }
    }
    assert children + [] == children;
    return Some((children, cursor));
  }

  /** `EpochInput::decode`. */
  method DecodeEpochInput(b: Bytes) returns (r: Option<EpochInput>)
    ensures r == ParseEpochInput(b)
  {
    if |b| < 66 || b[0] != 2 || !FanInOk(b[65]) { return None; }
    var children := ReadChildren(b, 66, b[65], ParseChildren(b[66..], b[65]));
    if children.None? || children.value.1 != |b| { return None; }
    return Some(EpochInput(b[1..33], b[33..65], children.value.0));
  }

  /** `EpochInput::encode`. */
  method EncodeEpochInput(x: EpochInput) returns (r: Option<Bytes>)
    ensures r == if FanInOk(|x.children|) then Some(Encoding(x)) else None
  {
    if !FanInOk(|x.children|) { return None; }
    var out: Bytes := [2] + x.leafVk + x.aggregateVk + [|x.children|];
    ghost var header := out;
    for i := 0 to |x.children|
      invariant header + EncodeChildren(x.children) == out + EncodeChildren(x.children[i..])
    {
      assert x.children[i..][1..] == x.children[i + 1..];
      out := out + ([if x.children[i].LeafChild? then 0 else 1] + x.children[i].bytes);
    }
    assert out + EncodeChildren([]) == out;
    return Some(out);
  }

  // ----- aggregate public values

  datatype EpochValues = EpochValues(
    epochId: U64, oldNullifierRoot: Word, newNullifierRoot: Word, epochCommitment: Word, lotCount: U64,
        eventCount: U64, valid: bool,
    leafVk: Word, aggregateVk: Word, certificateRoot: Word, polygonCommitment: Word)

  /** The eleven words of `EpochPublicValues::abi_encode`. */
  function EpochWords(v: EpochValues): (words: seq<Word>)
    ensures |words| == 11
  {
    [IntWord(v.epochId), v.oldNullifierRoot, v.newNullifierRoot, v.epochCommitment, IntWord(v.lotCount),
     IntWord(v.eventCount),
     IntWord(if v.valid then 1 else 0), v.leafVk, v.aggregateVk, v.certificateRoot, v.polygonCommitment]
  }

  /** Whatever a node publishes is a canonical child of the next node, and so is every encoded leaf. */
  lemma {:induction false} PublishedIsCanonical(v: EpochValues, leaf: LeafValues)
    ensures Canonical(AggregateChild(EncodeWords(EpochWords(v)))) && Canonical(LeafChild(EncodeWords(LeafWords(leaf))))
  {
    var b := EncodeWords(EpochWords(v));
    EncodeWordsLength(EpochWords(v));
    ElevenWords(b, EpochWords(v));
    WordExactly(WordAt(b, 0), v.epochId);
    WordExactly(WordAt(b, 4), v.lotCount);
    WordExactly(WordAt(b, 5), v.eventCount);
    WordExactly(WordAt(b, 6), if v.valid then 1 else 0);
    EncodeWordsLength(LeafWords(leaf));
    LeafExactly(EncodeWords(LeafWords(leaf)), leaf);
  }

  // ----- writing the leaf words in place

  /** Writes a value at the end of word `k` of a zeroed record. */
  method PutWord(output: array<Byte>, k: nat, bytes: Bytes)
    requires 32 * k + 32 <= output.Length && |bytes| <= 32
    requires forall i: nat :: 32 * k <= i < output.Length ==> output[i] == 0
    modifies output
    ensures output[..32 * k + 32] == old(output[..32 * k]) + (Zeros(32 - |bytes|) + bytes)
    ensures forall i: nat :: 32 * k + 32 <= i < output.Length ==> output[i] == 0
  {
    ghost var before := output[..32 * k];
    var start := 32 * k + 32 - |bytes|;
    for i := 0 to |bytes|
      invariant forall j: nat :: j < output.Length ==>
        output[j] == if start <= j < start + i then bytes[j - start] else old(output[j])
    {
      output[start + i] := bytes[i];
    }
    assert output[..32 * k + 32] == before + (Zeros(32 - |bytes|) + bytes);
  }

  lemma {:induction false} JoinSnoc(words: seq<Word>, w: Word)
    ensures EncodeWords(words + [w]) == EncodeWords(words) + w
  {
    if words == [] {
      assert EncodeWords([w]) == w + EncodeWords([w][1..]) && [w][1..] == [];
    } else {
      assert (words + [w])[0] == words[0] && (words + [w])[1..] == words[1..] + [w];
      JoinSnoc(words[1..], w);
    }
  }

  /** The first `k` words are written and the rest is still zero. */
  ghost predicate WrittenUpTo(output: seq<Byte>, words: seq<Word>, k: nat)
    requires k <= |words|
  {
    && 32 * k <= |output| && output[..32 * k] == EncodeWords(words[..k])
    && forall i: nat :: 32 * k <= i < |output| ==> output[i] == 0
  }

  /** Writes word `k` of the record. */
  method PutNext(output: array<Byte>, ghost words: seq<Word>, k: nat, bytes: Bytes)
    requires k < |words| && 32 * k + 32 <= output.Length && |bytes| <= 32 && words[k] == Zeros(32 - |bytes|) + bytes
    requires WrittenUpTo(output[..], words, k)
    modifies output
    ensures WrittenUpTo(output[..], words, k + 1)
  {
    assert output[..32 * k] == output[..][..32 * k];
    assert forall i: nat :: i < output.Length ==> output[i] == output[..][i];
    PutWord(output, k, bytes);
    JoinSnoc(words[..k], words[k]);
    assert words[..k + 1] == words[..k] + [words[k]];
    assert output[..][..32 * (k + 1)] == output[..32 * k + 32];
  }

  /** A digest fills its word. */
  method PutDigest(output: array<Byte>, ghost words: seq<Word>, k: nat, w: Word)
    requires k < |words| && 32 * k + 32 <= output.Length && words[k] == w
    requires WrittenUpTo(output[..], words, k)
    modifies output
    ensures WrittenUpTo(output[..], words, k + 1)
  {
    assert Zeros(0) + w == w;
    PutNext(output, words, k, w);
  }

  /** The two roots after the epoch. */
  method PutRoots(output: array<Byte>, v: LeafValues)
    requires output.Length == 352 && WrittenUpTo(output[..], LeafWords(v), 1)
    modifies output
    ensures WrittenUpTo(output[..], LeafWords(v), 3)
  {
    ghost var words := LeafWords(v);
    PutDigest(output, words, 1, v.oldNullifierRoot);
    PutDigest(output, words, 2, v.newNullifierRoot);
  }

  /** The four commitments after the roots. */
  method PutDigests(output: array<Byte>, v: LeafValues)
    requires output.Length == 352 && WrittenUpTo(output[..], LeafWords(v), 3)
    modifies output
    ensures WrittenUpTo(output[..], LeafWords(v), 7)
  {
    ghost var words := LeafWords(v);
    PutDigest(output, words, 3, v.eventBatchDigest);
    PutDigest(output, words, 4, v.certificateRoot);
    PutDigest(output, words, 5, v.polygonCommitment);
    PutDigest(output, words, 6, v.nullifier);
  }

  /** The four words after the digests. */
  method PutScalars(output: array<Byte>, v: LeafValues)
    requires output.Length == 352 && WrittenUpTo(output[..], LeafWords(v), 7)
    modifies output
    ensures WrittenUpTo(output[..], LeafWords(v), 11)
  {
    ghost var words := LeafWords(v);
    PaddedFields(v);
    PutNext(output, words, 7, [v.role]);
    PutNext(output, words, 8, ToBytes(v.threshold, 4));
    PutNext(output, words, 9, [v.eventCount]);
    PutNext(output, words, 10, [if v.valid then 1 else 0]);
  }

  /** `PolicyPublicValues::abi_encode`: each field is written at the end of its zeroed word. */
  method AbiEncode(v: LeafValues) returns (output: array<Byte>)
    ensures fresh(output) && output[..] == EncodeWords(LeafWords(v))
  {
    output := new Byte[352](_ => 0);
    ghost var words := LeafWords(v);
    PaddedFields(v);
    PutNext(output, words, 0, ToBytes(v.epochId, 8));
    PutRoots(output, v);
    PutDigests(output, v);
    PutScalars(output, v);
    assert words[..11] == words && output[..][..352] == output[..];
  }

  lemma {:induction false} PaddedFields(v: LeafValues)
    ensures Zeros(24) + ToBytes(v.epochId, 8) == IntWord(v.epochId)
    ensures Zeros(28) + ToBytes(v.threshold, 4) == IntWord(v.threshold)
    ensures Zeros(31) + [v.role] == IntWord(v.role) && Zeros(31) + [v.eventCount] == IntWord(v.eventCount)
    ensures Zeros(31) + [if v.valid then 1 else 0] == IntWord(if v.valid then 1 else 0)
  {
    WordSizes();
    ZeroPadded(v.epochId, 24, 8);
    ZeroPadded(v.threshold, 28, 4);
    OneByte(v.role);
    OneByte(v.eventCount);
    OneByte(if v.valid then 1 else 0);
  }

  lemma {:induction false} OneByte(n: Byte)
    ensures Zeros(31) + [n] == IntWord(n)
  {
    assert Pow2(8) == 0x100;
    ZeroPadded(n, 31, 1);
    assert ToBytes(n, 1) == [n];
  }
}
