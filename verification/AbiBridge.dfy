/**
 * The two models of the eleven public words are one: bytes are the word-by-word rendering of the symbolic
 * words, and whatever the symbolic aggregator accepts is canonical as bytes.
 */
module AbiBridge {
  import opened Primitives
  import opened Digests
  import opened Wire
  import opened EpochWire
  import Policy
  import Epoch
  import Disclosure

  /** Digests have 32 bytes, and a 64-bit number is written as, and only read from, its padded word. */
  ghost predicate ReadsIntegers(env: Policy.Env)
  {
    && (forall d: Digest :: |env.bytesOf(d)| == 32)
    && (forall n: U64 :: env.bytesOf(Raw(n)) == IntWord(n))
    && forall w: Word, n: U64 :: env.wordOf(w) == Raw(n) <==> w == IntWord(n)
  }

  // ----- writing

  ghost function Rendered(env: Policy.Env, words: seq<Digest>): seq<Word>
    requires ReadsIntegers(env)
  {
    seq(|words|, k requires 0 <= k < |words| => env.bytesOf(words[k]))
  }

  /** The byte-level values of an evaluated leaf. */
  ghost function LeafBytes(env: Policy.Env, v: Policy.PolicyPublicValues): LeafValues
    requires ReadsIntegers(env)
  {
    LeafValues(v.epochId, env.bytesOf(v.oldNullifierRoot), env.bytesOf(v.newNullifierRoot),
               env.bytesOf(v.eventBatchDigest), env.bytesOf(v.certificateRoot), env.bytesOf(v.polygonCommitment),
               env.bytesOf(v.nullifier), v.role, v.threshold, v.eventCount, v.valid)
  }

  /** The byte-level values of an evaluated node. */
  ghost function NodeBytes(env: Policy.Env, v: Epoch.EpochPublicValues): EpochValues
    requires ReadsIntegers(env)
  {
    EpochValues(v.epochId, env.bytesOf(v.oldNullifierRoot), env.bytesOf(v.newNullifierRoot),
                env.bytesOf(v.epochCommitment), v.lotCount, v.eventCount, v.valid, env.bytesOf(v.leafVk),
                env.bytesOf(v.aggregateVk), env.bytesOf(v.certificateRoot), env.bytesOf(v.polygonCommitment))
  }

  lemma {:induction false} LeafIsRendered(env: Policy.Env, v: Policy.PolicyPublicValues)
    requires ReadsIntegers(env)
    ensures LeafWords(LeafBytes(env, v)) == Rendered(env, Disclosure.LeafAbi(v))
  {
  }

  lemma {:induction false} NodeIsRendered(env: Policy.Env, v: Epoch.EpochPublicValues)
    requires ReadsIntegers(env)
    ensures EpochWords(NodeBytes(env, v)) == Rendered(env, Epoch.AbiEncode(v))
  {
  }

  // ----- reading

  /** The eleven words read from public bytes. */
  function WordsOf(env: Policy.Env, b: Bytes): Epoch.Words
    requires |b| == 352
  {
    var words := seq(11, k requires 0 <= k < 11 => env.wordOf(WordAt(b, k)));
    assert |words| == 11;
    words
  }

  function ChildOf(env: Policy.Env, c: Child): Epoch.EpochChild
    requires |c.bytes| == 352
  {
    if c.LeafChild? then Epoch.Leaf(WordsOf(env, c.bytes)) else Epoch.Aggregate(WordsOf(env, c.bytes))
  }

  lemma {:induction false} ReadsTheSameNumber(env: Policy.Env, w: Word)
    requires ReadsIntegers(env)
    ensures Epoch.WordU64(env.wordOf(w)).Ok? <==> WordU64(w).Some?
    ensures WordU64(w).Some? ==> env.wordOf(w) == Raw(WordU64(w).value)
  {
    var d := env.wordOf(w);
    if WordU64(w).Some? { WordExactly(w, WordU64(w).value); }
    if Epoch.WordU64(d).Ok? {
      assert w == IntWord(d.word);
      WordExactly(w, d.word);
    }
  }

  lemma {:induction false} WordsAreIntegers(env: Policy.Env, b: Bytes, k: nat)
    requires ReadsIntegers(env) && |b| == 352 && k < 11
    ensures Epoch.IsU64(WordsOf(env, b)[k]) <==> WordU64(WordAt(b, k)).Some?
    ensures WordU64(WordAt(b, k)).Some? ==> WordsOf(env, b)[k] == Raw(WordU64(WordAt(b, k)).value)
  {
    ReadsTheSameNumber(env, WordAt(b, k));
  }

  /** A child the aggregator accepts has canonical bytes. */
  lemma {:induction false} AcceptedIsCanonical(env: Policy.Env, keys: Epoch.Keys, c: Child)
    requires ReadsIntegers(env) && |c.bytes| == 352 && Epoch.ChildOk(keys, ChildOf(env, c))
    ensures Canonical(c)
  {
    hide WordU64;
    hide WordAt;
    var b := c.bytes;
    WordsAreIntegers(env, b, 0);
    if c.LeafChild? {
      WordsAreIntegers(env, b, 7);
      WordsAreIntegers(env, b, 8);
      WordsAreIntegers(env, b, 9);
      WordsAreIntegers(env, b, 10);
    } else {
      WordsAreIntegers(env, b, 4);
      WordsAreIntegers(env, b, 5);
      WordsAreIntegers(env, b, 6);
    }
  }

  ghost function ChildrenOf(env: Policy.Env, children: seq<Child>): seq<Epoch.EpochChild>
    requires forall c :: c in children ==> |c.bytes| == 352
  {
    seq(|children|, k requires 0 <= k < |children| => ChildOf(env, children[k]))
  }

  /** An input whose children the aggregator accepts is read back from its own encoding. */
  lemma {:induction false} AcceptedInputIsReadBack(env: Policy.Env, keys: Epoch.Keys, x: EpochInput)
    requires ReadsIntegers(env) && forall c :: c in x.children ==> |c.bytes| == 352
    requires Epoch.EvaluateNode(keys, ChildrenOf(env, x.children)).Ok?
    ensures FanInOk(|x.children|) && ParseEpochInput(EpochWire.Encoding(x)) == Some(x)
  {
    hide Canonical;
    hide Epoch.ChildOk;
    hide Epoch.EvaluateNode;
    hide ReadsIntegers;
    var children := ChildrenOf(env, x.children);
    Epoch.NodeAcceptsExactly(keys, children);
    forall c | c in x.children
      ensures Canonical(c)
    {
      var k: nat :| k < |x.children| && x.children[k] == c;
      assert children[k] in children;
      AcceptedIsCanonical(env, keys, c);
    }
    RoundTripExactly(x);
  }

  /** Words that are read back from their own bytes survive writing and reading. */
  lemma {:induction false} RenderedIsReadBack(env: Policy.Env, words: Epoch.Words)
    requires ReadsIntegers(env) && forall d :: d in words ==> env.wordOf(env.bytesOf(d)) == d
    ensures |EncodeWords(Rendered(env, words))| == 352
    ensures WordsOf(env, EncodeWords(Rendered(env, words))) == words
  {
    var rendered := Rendered(env, words);
    var b := EncodeWords(rendered);
    EncodeWordsLength(rendered);
    WordsJoin(b, rendered);
    forall k: nat | k < 11
      ensures WordsOf(env, b)[k] == words[k]
    {
      assert SameWord(b, rendered, k) && words[k] in words;
    }
  }

  /** The bytes of a published leaf are read back as the symbolic leaf, and those of a node as the symbolic node. */
  lemma {:induction false} PublishedIsReadBack(env: Policy.Env, leaf: Policy.PolicyPublicValues,
                                               node: Epoch.EpochPublicValues)
    requires ReadsIntegers(env)
    requires forall d :: d in Disclosure.LeafAbi(leaf) ==> env.wordOf(env.bytesOf(d)) == d
    requires forall d :: d in Epoch.AbiEncode(node) ==> env.wordOf(env.bytesOf(d)) == d
    ensures var b := EncodeWords(LeafWords(LeafBytes(env, leaf)));
      |b| == 352 && ChildOf(env, LeafChild(b)) == Epoch.Leaf(Disclosure.LeafAbi(leaf))
    ensures var b := EncodeWords(EpochWords(NodeBytes(env, node)));
      |b| == 352 && ChildOf(env, AggregateChild(b)) == Epoch.Aggregate(Epoch.AbiEncode(node))
  {
    LeafIsRendered(env, leaf);
    NodeIsRendered(env, node);
    RenderedIsReadBack(env, Disclosure.LeafAbi(leaf));
    RenderedIsReadBack(env, Epoch.AbiEncode(node));
  }
}
