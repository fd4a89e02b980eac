/** The bundle and its witness: what the digest is computed over, and which fields it determines.

    SHAKE-256 is taken to be free of collisions, so a witness is represented by the bytes it digests. */
module Bundle {
  import opened Bytes
  import opened Wrappers

  /** A Rust string: its UTF-8 bytes. */
  type Utf8 = seq<byte>

  datatype Generation = Num(n: u64) | Opaque(text: Utf8)

  datatype Witness = Witness(preimage: seq<byte>)

  datatype Fields = Fields(dataRef: Utf8, dim: u64, rotationSeed: u64, rerankFactor: u64, generation: Generation)

  function Ascii(s: string): (r: Utf8)
    ensures |r| == |s|
  {
    seq(|s|, i requires 0 <= i < |s| => (s[i] as int) % 256)
  }

  const DOMAIN: Utf8 := Ascii("rulake-bundle-witness-v1|")
  const BAR: Utf8 := Ascii("|")

  /** One tag byte, then the number's eight bytes or the text. */
  function HashBytes(g: Generation): seq<byte> {
    match g
    case Num(n) => [0] + LittleEndian(n, 8)
    case Opaque(text) => [1] + text
  }

  function Prefixed(s: seq<byte>): seq<byte> {
    LittleEndian(|s|, 8) + s
  }

  function Preimage(f: Fields): seq<byte> {
    DOMAIN + (Prefixed(f.dataRef) + (BAR + (LittleEndian(f.dim, 8) + (LittleEndian(f.rotationSeed, 8)
    + (LittleEndian(f.rerankFactor, 8) + (BAR + Prefixed(HashBytes(f.generation))))))))
  }

  /** The hasher is fed piece by piece. */
  method ComputeWitness(f: Fields) returns (w: Witness)
    ensures w == Witness(Preimage(f))
  {
    var h: seq<byte> := DOMAIN;
    h := h + LittleEndian(|f.dataRef|, 8);
    h := h + f.dataRef;
    h := h + BAR;
    h := h + LittleEndian(f.dim, 8);
    h := h + LittleEndian(f.rotationSeed, 8);
    h := h + LittleEndian(f.rerankFactor, 8);
    h := h + BAR;
    var g := HashBytes(f.generation);
    h := h + LittleEndian(|g|, 8);
    h := h + g;
    assert h == Preimage(f);
    w := Witness(h);
  }

  // ---------------------------------------------------------------- where everything is

  lemma Deeper(whole: seq<byte>, at: nat, a: seq<byte>, b: seq<byte>)
    requires at <= |whole| && whole[at..] == a + b
    ensures at + |a| <= |whole| && whole[at..at + |a|] == a && whole[at + |a|..] == b
  {
    assert whole[at..at + |a|] == whole[at..][..|a|];
    assert whole[at + |a|..] == whole[at..][|a|..];
  }

  lemma DomainIs()
    ensures |DOMAIN| == 25 && BAR == [0x7C]
  {
  }

  /** The domain is this text. */
  lemma DomainText()
    ensures |DOMAIN| == 25
    ensures forall i :: 0 <= i < 25 ==> DOMAIN[i] == "rulake-bundle-witness-v1|"[i] as int
  {
  }

  /** What is digested from the dimension on. */
  function NumbersOf(f: Fields): seq<byte> {
    LittleEndian(f.dim, 8) + (LittleEndian(f.rotationSeed, 8) + (LittleEndian(f.rerankFactor, 8)
    + (BAR + Prefixed(HashBytes(f.generation)))))
  }

  /** What is digested, position by position, all numbers with the lowest byte first: the domain, the length of the data
      reference and the reference, a bar, and then the numbers. */
  lemma PreimageLayout(f: Fields)
    ensures
      var p, n := Preimage(f), |f.dataRef|;
      && |p| >= 34 + n
      && p[..25] == DOMAIN && p[25..33] == LittleEndian(n, 8) && p[33..33 + n] == f.dataRef
      && p[33 + n..34 + n] == [0x7C] && p[34 + n..] == NumbersOf(f)
  {
    var p, n, rest := Preimage(f), |f.dataRef|, BAR + NumbersOf(f);
    assert p == DOMAIN + (Prefixed(f.dataRef) + rest);
    DomainIs();
    PrefixedIs(f.dataRef, rest);
    hide *;
    assert p[0..] == p;
    Deeper(p, 0, DOMAIN, Prefixed(f.dataRef) + rest);
    Deeper(p, 25, LittleEndian(n, 8), f.dataRef + rest);
    Deeper(p, 33, f.dataRef, rest);
    Deeper(p, 33 + n, BAR, NumbersOf(f));
  }

  /** The numbers: dimension, rotation seed and rerank factor in eight bytes each, a bar, the length of the tagged
      generation, and that: 0 and eight bytes for a number, 1 and the text for a text. */
  lemma NumbersLayout(f: Fields)
    ensures
      var q, g := NumbersOf(f), HashBytes(f.generation);
      && |q| == 33 + |g|
      && q[0..8] == LittleEndian(f.dim, 8) && q[8..16] == LittleEndian(f.rotationSeed, 8)
      && q[16..24] == LittleEndian(f.rerankFactor, 8) && q[24..25] == [0x7C]
      && q[25..33] == LittleEndian(|g|, 8) && q[33..] == g
    ensures
      match f.generation
      case Num(x) => HashBytes(f.generation) == [0] + LittleEndian(x, 8)
      case Opaque(text) => HashBytes(f.generation) == [1] + text
  {
    var q, g := NumbersOf(f), HashBytes(f.generation);
    var r2 := BAR + Prefixed(g);
    var r1 := LittleEndian(f.rerankFactor, 8) + r2;
    DomainIs();
    PrefixedIs(g, []);
    assert Prefixed(g) + [] == Prefixed(g) && g + [] == g;
    assert q[0..] == LittleEndian(f.dim, 8) + (LittleEndian(f.rotationSeed, 8) + r1);
    hide LittleEndian, Prefixed, NumbersOf, BAR;
    Deeper(q, 0, LittleEndian(f.dim, 8), LittleEndian(f.rotationSeed, 8) + r1);
    Deeper(q, 8, LittleEndian(f.rotationSeed, 8), r1);
    Deeper(q, 16, LittleEndian(f.rerankFactor, 8), r2);
    Deeper(q, 24, BAR, Prefixed(g));
    Deeper(q, 25, LittleEndian(|g|, 8), g);
  }

  lemma PrefixedIs(s: seq<byte>, rest: seq<byte>)
    ensures Prefixed(s) + rest == LittleEndian(|s|, 8) + (s + rest)
  {
  }

  // ---------------------------------------------------------------- injectivity

  /** Lengths fit the 64-bit length fields. */
  predicate Measurable(f: Fields) {
    && |f.dataRef| < 0x1_0000_0000_0000_0000
    && |HashBytes(f.generation)| < 0x1_0000_0000_0000_0000
  }

  lemma SplitEqual(a: seq<byte>, b: seq<byte>, c: seq<byte>, d: seq<byte>)
    requires a + b == c + d && |a| == |c|
    ensures a == c && b == d
  {
    assert a == (a + b)[..|a|] == c;
    assert b == (a + b)[|a|..] == d;
  }

  lemma NumberSplit(n: u64, b: seq<byte>, m: u64, d: seq<byte>)
    requires LittleEndian(n, 8) + b == LittleEndian(m, 8) + d
    ensures n == m && b == d
  {
    SplitEqual(LittleEndian(n, 8), b, LittleEndian(m, 8), d);
    Pow256Values();
    LittleEndianInjective(n, m, 8);
  }

  lemma PrefixedSplit(s: seq<byte>, b: seq<byte>, t: seq<byte>, d: seq<byte>)
    requires |s| < 0x1_0000_0000_0000_0000 && |t| < 0x1_0000_0000_0000_0000
    requires Prefixed(s) + b == Prefixed(t) + d
    ensures s == t && b == d
  {
    assert Prefixed(s) + b == LittleEndian(|s|, 8) + (s + b);
    assert Prefixed(t) + d == LittleEndian(|t|, 8) + (t + d);
    NumberSplit(|s|, s + b, |t|, t + d);
    SplitEqual(s, b, t, d);
  }

  /** The tag byte keeps numbers and texts apart. */
  lemma HashBytesInjective(g: Generation, g': Generation)
    requires HashBytes(g) == HashBytes(g')
    ensures g == g'
  {
    assert HashBytes(g)[0] == HashBytes(g')[0];
    match (g, g') {
      case (Num(n), Num(n')) =>
        SplitEqual([0], LittleEndian(n, 8), [0], LittleEndian(n', 8));
        assert LittleEndian(n, 8) + [] == LittleEndian(n', 8) + [];
        NumberSplit(n, [], n', []);
      case (Opaque(t), Opaque(t')) =>
        SplitEqual([1], t, [1], t');
      case _ =>
    }
  }

  /** Equal digested bytes mean equal fields. */
  lemma PreimageInjective(f: Fields, f': Fields)
    requires Measurable(f) && Measurable(f') && Preimage(f) == Preimage(f')
    ensures f == f'
  {
    hide Prefixed, HashBytes, LittleEndian;
    var g, g' := Prefixed(HashBytes(f.generation)), Prefixed(HashBytes(f'.generation));
    var r6, r6' := BAR + g, BAR + g';
    var r5, r5' := LittleEndian(f.rerankFactor, 8) + r6, LittleEndian(f'.rerankFactor, 8) + r6';
    var r4, r4' := LittleEndian(f.rotationSeed, 8) + r5, LittleEndian(f'.rotationSeed, 8) + r5';
    var r3, r3' := LittleEndian(f.dim, 8) + r4, LittleEndian(f'.dim, 8) + r4';
    var r2, r2' := BAR + r3, BAR + r3';
    SplitEqual(DOMAIN, Prefixed(f.dataRef) + r2, DOMAIN, Prefixed(f'.dataRef) + r2');
    PrefixedSplit(f.dataRef, r2, f'.dataRef, r2');
    SplitEqual(BAR, r3, BAR, r3');
    NumberSplit(f.dim, r4, f'.dim, r4');
    NumberSplit(f.rotationSeed, r5, f'.rotationSeed, r5');
    NumberSplit(f.rerankFactor, r6, f'.rerankFactor, r6');
    SplitEqual(BAR, g, BAR, g');
    assert g + [] == g' + [];
    PrefixedSplit(HashBytes(f.generation), [], HashBytes(f'.generation), []);
    HashBytesInjective(f.generation, f'.generation);
  }

  // ---------------------------------------------------------------- bundles

  const FORMAT_VERSION: u32 := 2

  /** The five digested fields, the witness, and four fields that are not digested. */
  datatype RuLakeBundle = RuLakeBundle(
    formatVersion: u32,
    fields: Fields,
    rvfWitness: Witness,
    piiPolicy: Option<Utf8>,
    lineageId: Option<Utf8>,
    memoryClass: Option<Utf8>)

  function NewBundle(f: Fields): RuLakeBundle {
    RuLakeBundle(FORMAT_VERSION, f, Witness(Preimage(f)), None, None, None)
  }

  predicate VerifyWitness(b: RuLakeBundle) {
    Witness(Preimage(b.fields)) == b.rvfWitness
  }

  /** Two bundles that verify have equal witnesses exactly when their digested fields agree. */
  lemma WitnessDeterminesFields(b: RuLakeBundle, b': RuLakeBundle)
    requires VerifyWitness(b) && VerifyWitness(b') && Measurable(b.fields) && Measurable(b'.fields)
    ensures b.rvfWitness == b'.rvfWitness <==> b.fields == b'.fields
  {
    if b.rvfWitness == b'.rvfWitness {
      PreimageInjective(b.fields, b'.fields);
    }
  }

  /** A bundle that verifies and is then altered, except for its witness, still verifies exactly when no digested field
      was altered: version, policy, lineage and memory class can be changed at will. */
  lemma AlterationUnnoticedExactlyWhen(b: RuLakeBundle, b': RuLakeBundle)
    requires VerifyWitness(b) && b'.rvfWitness == b.rvfWitness && Measurable(b.fields) && Measurable(b'.fields)
    ensures VerifyWitness(b') <==> b'.fields == b.fields
    ensures VerifyWitness(b.(formatVersion := b'.formatVersion, piiPolicy := b'.piiPolicy, lineageId := b'.lineageId,
                             memoryClass := b'.memoryClass))
  {
    if VerifyWitness(b') {
      WitnessDeterminesFields(b, b');
    }
  }

  // ---------------------------------------------------------------- data references

  const SLASH: byte := 0x2F

  /** local://{id}/{collection} */
  function LocalDataRef(id: Utf8, collection: Utf8): (r: Utf8)
    ensures |r| == 9 + |id| + |collection|
  {
    Ascii("local://") + (id + ([SLASH] + collection))
  }

  lemma LocalDataRefLayout(id: Utf8, collection: Utf8)
    ensures
      var r, n := LocalDataRef(id, collection), |id|;
      && (forall i :: 0 <= i < 8 ==> r[i] == "local://"[i] as int)
      && r[8..8 + n] == id && r[8 + n] == 0x2F && r[9 + n..] == collection
  {
  }

  /** Backend ids without a slash give different references to different collections. */
  lemma LocalDataRefInjective(id: Utf8, c: Utf8, id': Utf8, c': Utf8)
    requires SLASH !in id && SLASH !in id'
    requires LocalDataRef(id, c) == LocalDataRef(id', c')
    ensures id == id' && c == c'
  {
    hide Ascii;
    var r, r' := id + ([SLASH] + c), id' + ([SLASH] + c');
    SplitEqual(Ascii("local://"), r, Ascii("local://"), r');
    assert r[|id|] == SLASH && r'[|id'|] == SLASH;
    assert forall p :: 0 <= p < |id| ==> r[p] == id[p] && id[p] in id;
    assert forall p :: 0 <= p < |id'| ==> r'[p] == id'[p] && id'[p] in id';
    SplitEqual(id, [SLASH] + c, id', [SLASH] + c');
    SplitEqual([SLASH], c, [SLASH], c');
  }

  ghost predicate SameReference(id: Utf8, c: Utf8, id': Utf8, c': Utf8) {
    LocalDataRef(id, c) == LocalDataRef(id', c')
  }

  /** A reference can be read in two ways exactly when the backend id or the collection name contains a slash; two
      different collections then share one witness. */
  lemma DataRefAmbiguousExactlyWhen(id: Utf8, c: Utf8)
    ensures (exists id', c' :: SameReference(id, c, id', c') && (id', c') != (id, c)) <==> SLASH in id || SLASH in c
  {
    hide Ascii;
    if SLASH in id {
      var p :| 0 <= p < |id| && id[p] == SLASH;
      var id', c' := id[..p], id[p + 1..] + ([SLASH] + c);
      assert id' + ([SLASH] + c') == id + ([SLASH] + c);
      assert SameReference(id, c, id', c');
    } else if SLASH in c {
      var p :| 0 <= p < |c| && c[p] == SLASH;
      var id', c' := id + ([SLASH] + c[..p]), c[p + 1..];
      assert id' + ([SLASH] + c') == id + ([SLASH] + c);
      assert SameReference(id, c, id', c');
    } else if id', c' :| SameReference(id, c, id', c') && (id', c') != (id, c) {
      var r, r' := id + ([SLASH] + c), id' + ([SLASH] + c');
      SplitEqual(Ascii("local://"), r, Ascii("local://"), r');
      assert r'[|id'|] == SLASH;
      assert forall p :: 0 <= p < |r| && p != |id| ==> r[p] in id || r[p] in c;
      SplitEqual(id, [SLASH] + c, id', [SLASH] + c');
      SplitEqual([SLASH], c, [SLASH], c');
    }
  }
}
