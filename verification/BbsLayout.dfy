// The octet strings that BBS hashes and serializes, field by field at their
// offsets, and what the hashes bind: equal scalars come from equal inputs, or
// from two octet strings, given field by field, that hash to one scalar.
module BbsLayout {
  import opened Arithmetic
  import opened Octets
  import opened Results
  import opened Sums
  import opened Bbs
  import opened BbsEncoding
  import opened BbsProtocol

  // ---- Reading fields at offsets ----

  /** The len octets at an offset read as v. */
  predicate Reads(o: Octets, at: nat, len: nat, v: nat)
  {
    at + len <= |o| && Os2ip(o[at..at + len]) == v
  }

  /** The octets x stand at an offset. */
  predicate Stands(o: Octets, at: nat, x: Octets)
  {
    at + |x| <= |o| && o[at..at + |x|] == x
  }

  /** Fields of 32 octets, one after the other, read as the values. */
  predicate ReadsScalars(o: Octets, at: nat, vs: seq<nat>)
  {
    at + 32 * |vs| <= |o| && forall i :: 0 <= i < |vs| ==> Reads(o, at + 32 * i, 32, vs[i])
  }

  /** Pairs of an index in 8 octets and a scalar in 32. */
  predicate ReadsPairs(o: Octets, at: nat, idx: seq<nat>, ms: seq<nat>)
    requires |idx| == |ms|
  {
    && at + 40 * |idx| <= |o|
    && forall i :: 0 <= i < |idx| ==> Reads(o, at + 40 * i, 8, idx[i]) && Reads(o, at + 40 * i + 8, 32, ms[i])
  }

  /** Encoded points of 48 octets, one after the other. */
  predicate ReadsPoints<G1(==, !new), G2(==, !new), GT(==, !new)>(
      S: Suite<G1, G2, GT>, o: Octets, at: nat, xs: seq<G1>)
  {
    at + 48 * |xs| <= |o| && forall i :: 0 <= i < |xs| ==> Stands(o, at + 48 * i, S.encode1(xs[i]))
  }

  lemma ReadsField(o: Octets, at: nat, len: nat, v: nat)
    requires v < Pow(256, len)
    ensures |Field(v, len)| == len
    ensures Reads(o, at, len, v) <==> Stands(o, at, Field(v, len))
  {
    hide Pow, Os2ip, I2osp;
    FieldOctets(v, len);
    if Reads(o, at, len, v) {
      FieldOf(o[at..at + len], v, len);
    }
  }

  lemma FieldOctets(v: nat, len: nat)
    requires v < Pow(256, len)
    ensures |Field(v, len)| == len && Os2ip(Field(v, len)) == v
  {
    FieldLength(v, len);
  }

  lemma FieldOf(f: Octets, v: nat, len: nat)
    requires v < Pow(256, len) && |f| == len && Os2ip(f) == v
    ensures f == Field(v, len)
  {
    hide Pow, Os2ip, I2osp;
    I2ospOfOs2ip(f);
  }

  /** Two parts stand one after the other exactly when their concatenation stands. */
  lemma StandsConcat(o: Octets, at: nat, x: Octets, y: Octets)
    ensures Stands(o, at, x + y) <==> Stands(o, at, x) && Stands(o, at + |x|, y)
  {
    if at + |x| + |y| <= |o| {
      var both := o[at..at + |x| + |y|];
      assert both[..|x|] == o[at..at + |x|] && both[|x|..] == o[at + |x|..at + |x| + |y|];
      assert both == both[..|x|] + both[|x|..];
      assert (x + y)[..|x|] == x && (x + y)[|x|..] == y;
    }
  }

  lemma {:induction false} ScalarsStand(o: Octets, at: nat, vs: seq<nat>)
    requires ScalarsFit(vs)
    ensures |Fields(vs)| == 32 * |vs|
    ensures ReadsScalars(o, at, vs) <==> Stands(o, at, Fields(vs))
  {
    FieldsLength(vs);
    if |vs| == 0 {
      assert Fields(vs) == [];
    } else {
      hide Reads, Stands, ReadsScalars, Field, Pow;
      var n := |vs| - 1;
      ScalarsStand(o, at, vs[..n]);
      ReadsField(o, at + 32 * n, 32, vs[n]);
      StandsConcat(o, at, Fields(vs[..n]), ScalarField(vs[n]));
      LastScalar(o, at, vs);
    }
  }

  lemma LastScalar(o: Octets, at: nat, vs: seq<nat>)
    requires |vs| > 0
    ensures var n := |vs| - 1;
      ReadsScalars(o, at, vs) <==> ReadsScalars(o, at, vs[..n]) && Reads(o, at + 32 * n, 32, vs[n])
  {
    hide Reads;
    var n := |vs| - 1;
    if Reads(o, at + 32 * n, 32, vs[n]) {
      ReadsInside(o, at + 32 * n, 32, vs[n]);
    }
  }

  lemma ReadsInside(o: Octets, at: nat, len: nat, v: nat)
    requires Reads(o, at, len, v)
    ensures at + len <= |o|
  {}

  lemma {:induction false} PairsStand(o: Octets, at: nat, idx: seq<nat>, ms: seq<nat>)
    requires |idx| == |ms| && IndexesFit(idx) && ScalarsFit(ms)
    ensures |Pairs(idx, ms)| == 40 * |idx|
    ensures ReadsPairs(o, at, idx, ms) <==> Stands(o, at, Pairs(idx, ms))
  {
    PairsLength(idx, ms);
    if |idx| == 0 {
      assert Pairs(idx, ms) == [];
    } else {
      var n := |idx| - 1;
      assert IndexesFit(idx[..n]) && ScalarsFit(ms[..n]);
      hide *;
      PairsStep(idx, ms);
      PairsStand(o, at, idx[..n], ms[..n]);
      PairStands(o, at + 40 * n, idx[n], ms[n]);
      StandsConcat(o, at, Pairs(idx[..n], ms[..n]), Index(idx[n]) + ScalarField(ms[n]));
      LastPair(o, at, idx, ms);
    }
  }

  lemma PairStands(o: Octets, at: nat, i: nat, m: nat)
    requires i < LENGTH_LIMIT && m < Pow(256, 32)
    ensures |Index(i) + ScalarField(m)| == 40
    ensures Stands(o, at, Index(i) + ScalarField(m)) <==> Reads(o, at, 8, i) && Reads(o, at + 8, 32, m)
  {
    hide Reads, Stands, Pow, Field;
    ReadsField(o, at, 8, i);
    ReadsField(o, at + 8, 32, m);
    StandsConcat(o, at, Index(i), ScalarField(m));
  }

  lemma LastPair(o: Octets, at: nat, idx: seq<nat>, ms: seq<nat>)
    requires |idx| == |ms| > 0
    ensures var n := |idx| - 1;
      ReadsPairs(o, at, idx, ms) <==>
        && ReadsPairs(o, at, idx[..n], ms[..n])
        && Reads(o, at + 40 * n, 8, idx[n]) && Reads(o, at + 40 * n + 8, 32, ms[n])
  {
    hide Reads;
    var n := |idx| - 1;
    if Reads(o, at + 40 * n + 8, 32, ms[n]) {
      ReadsInside(o, at + 40 * n + 8, 32, ms[n]);
    }
  }

  lemma {:induction false} PointsStand<G1(!new), G2(!new), GT(!new)>(
      S: Suite<G1, G2, GT>, o: Octets, at: nat, xs: seq<G1>)
    requires S.Valid()
    ensures |PointFields(S, xs)| == 48 * |xs|
    ensures ReadsPoints(S, o, at, xs) <==> Stands(o, at, PointFields(S, xs))
  {
    PointFieldsLength(S, xs);
    if |xs| > 0 {
      var n := |xs| - 1;
      assert S.EncodesPoint(xs[n]);
      PointsStand(S, o, at, xs[..n]);
      StandsConcat(o, at, PointFields(S, xs[..n]), S.encode1(xs[n]));
      hide Stands;
      assert Stands(o, at, PointFields(S, xs)) ==> at + 48 * |xs| <= |o| by {
        StandsInside(o, at, PointFields(S, xs));
      }
      assert Stands(o, at + 48 * n, S.encode1(xs[n])) ==> at + 48 * |xs| <= |o| by {
        StandsInside(o, at + 48 * n, S.encode1(xs[n]));
      }
    }
  }

  lemma StandsInside(o: Octets, at: nat, x: Octets)
    ensures Stands(o, at, x) ==> at + |x| <= |o|
  {}

  lemma StandsWhole(o: Octets, x: Octets)
    ensures o == x <==> |o| == |x| && Stands(o, 0, x)
  {
    assert o[0..|o|] == o;
  }

  /** Octets of one length at one offset of one string are the same. */
  lemma SameStand(o: Octets, at: nat, x: Octets, y: Octets)
    requires |x| == |y| && Stands(o, at, x) && Stands(o, at, y)
    ensures x == y
  {}

  // ---- The scalar of an octet string ----

  /** hash_to_scalar with the tag of the ciphersuite's scalars. */
  function Hashed<G1(==, !new), G2(==, !new), GT(==, !new)>(S: Suite<G1, G2, GT>, o: Octets): nat
  {
    Os2ip(S.expand(o, ScalarTag)) % S.r
  }

  /** The scalar that a message is mapped to. */
  function Mapped<G1(==, !new), G2(==, !new), GT(==, !new)>(S: Suite<G1, G2, GT>, message: Octets): nat
  {
    Os2ip(S.expand(message, MapTag)) % S.r
  }

  /** Two different octet strings that hash to one scalar. */
  predicate Meet<G1(==, !new), G2(==, !new), GT(==, !new)>(S: Suite<G1, G2, GT>, o: Octets, o': Octets)
  {
    o != o' && Hashed(S, o) == Hashed(S, o')
  }

  // ---- The generators ----

  /** The values of v in the generator loop, from the seed on. */
  predicate SeedChain<G1(==, !new), G2(==, !new), GT(==, !new)>(S: Suite<G1, G2, GT>, v: seq<Octets>)
  {
    |v| > 0 && v[0] == S.expand(S.generatorSeed, SeedTag) && forall i :: 0 < i < |v| ==> Link(S, v, i)
  }

  /** Value i is expanded from the value before it and i in eight octets. */
  predicate Link<G1(==, !new), G2(==, !new), GT(==, !new)>(S: Suite<G1, G2, GT>, v: seq<Octets>, i: nat)
    requires 0 < i < |v|
  {
    i < Pow(256, 8) && v[i] == S.expand(v[i - 1] + I2osp(i, 8), SeedTag)
  }

  /** The points of the chain: Q_1, H_1, H_2, ... */
  function ChainPoints<G1(==, !new), G2(==, !new), GT(==, !new)>(
      S: Suite<G1, G2, GT>, v: seq<Octets>): (g: seq<G1>)
    requires |v| > 0
    ensures |g| == |v| - 1 && forall i :: 0 <= i < |g| ==> g[i] == S.curveHash(v[i + 1])
  {
    seq(|v| - 1, i requires 0 <= i < |v| - 1 => S.curveHash(v[i + 1]))
  }

  lemma {:induction false} ChainIsLoop<G1(!new), G2(!new), GT(!new)>(S: Suite<G1, G2, GT>, v: seq<Octets>, i: nat)
    requires SeedChain(S, v) && i < |v|
    ensures ChainValue(S, i) == v[i]
  {
    hide Pow, I2osp;
    ChainStep(S, i);
    if i > 0 {
      ChainIsLoop(S, v, i - 1);
      assert Link(S, v, i);
    }
  }

  /** Every suite's generators are the curve hashes of its chain. */
  lemma GeneratorsOfChain<G1(!new), G2(!new), GT(!new)>(S: Suite<G1, G2, GT>, v: seq<Octets>)
    requires SeedChain(S, v) && |v| >= 2
    ensures Q1(S) == S.curveHash(v[1])
    ensures HPoints(S, |v| - 2) == ChainPoints(S, v)[1..]
  {
    hide SeedChain, ChainValue;
    ChainIsLoop(S, v, 1);
    forall i | 0 <= i < |v| - 2 ensures HPoints(S, |v| - 2)[i] == ChainPoints(S, v)[1..][i] {
      ChainIsLoop(S, v, i + 2);
    }
  }

  lemma {:induction false} ChainExists<G1(!new), G2(!new), GT(!new)>(S: Suite<G1, G2, GT>, n: nat)
    returns (v: seq<Octets>)
    requires 0 < n <= Pow(256, 8)
    ensures SeedChain(S, v) && |v| == n
  {
    hide Pow, I2osp;
    if n == 1 {
      v := [S.expand(S.generatorSeed, SeedTag)];
    } else {
      var u := ChainExists(S, n - 1);
      v := u + [S.expand(u[n - 2] + I2osp(n - 1, 8), SeedTag)];
      forall i | 0 < i < n ensures Link(S, v, i) {
        assert i < n - 1 ==> Link(S, u, i);
      }
    }
  }

  // ---- The domain ----

  /** The octets of calculate_domain: key, count, points, api id, header length, header. */
  predicate DomainInput<G1(==, !new), G2(==, !new), GT(==, !new)>(
      S: Suite<G1, G2, GT>, o: Octets, pk: Octets, points: seq<G1>, header: Octets)
  {
    var end := 104 + 48 * |points|;
    && |points| > 0 && |pk| == 96 && |o| == end + |S.apiId| + 8 + |header|
    && Stands(o, 0, pk) && Reads(o, 96, 8, |points| - 1) && ReadsPoints(S, o, 104, points)
    && Stands(o, end, S.apiId) && Reads(o, end + |S.apiId|, 8, |header|) && Stands(o, end + |S.apiId| + 8, header)
  }

  lemma FirstPoint<G1(!new), G2(!new), GT(!new)>(S: Suite<G1, G2, GT>, o: Octets, at: nat, x: G1, xs: seq<G1>)
    requires S.Valid()
    ensures ReadsPoints(S, o, at, [x] + xs) <==> Stands(o, at, S.encode1(x)) && ReadsPoints(S, o, at + 48, xs)
  {
    assert S.EncodesPoint(x);
    StandsInside(o, at, S.encode1(x));
    hide Stands;
    var all := [x] + xs;
    if ReadsPoints(S, o, at, all) {
      assert Stands(o, at + 48 * 0, S.encode1(all[0]));
      forall i | 0 <= i < |xs| ensures Stands(o, at + 48 + 48 * i, S.encode1(xs[i])) {
        assert Stands(o, at + 48 * (i + 1), S.encode1(all[i + 1]));
      }
    }
  }

  /** They are the octets that the domain hashes. */
  lemma DomainInputExact<G1(!new), G2(!new), GT(!new)>(
      S: Suite<G1, G2, GT>, o: Octets, pk: Octets, q: G1, hs: seq<G1>, header: Octets)
    requires S.Valid() && |pk| == 96 && |hs| < LENGTH_LIMIT && |header| < LENGTH_LIMIT
    ensures DomainInput(S, o, pk, [q] + hs, header) <==> o == DomainOctets(S, pk, q, hs, header)
  {
    hide Stands, Reads, ReadsPoints, Field, PointFields;
    assert S.EncodesPoint(q);
    var end := 152 + 48 * |hs|;
    var count, length := Index(|hs|), Index(|header|);
    ReadsField(o, 96, 8, |hs|);
    ReadsField(o, end + |S.apiId|, 8, |header|);
    FirstPoint(S, o, 104, q, hs);
    PointsStand(S, o, 152, hs);
    var listed := count + S.encode1(q) + PointFields(S, hs);
    StandsWhole(o, DomainOctets(S, pk, q, hs, header));
    StandsConcat(o, 0, pk + (listed + S.apiId) + length, header);
    StandsConcat(o, 0, pk + (listed + S.apiId), length);
    StandsConcat(o, 0, pk, listed + S.apiId);
    StandsConcat(o, 96, listed, S.apiId);
    StandsConcat(o, 96, count + S.encode1(q), PointFields(S, hs));
    StandsConcat(o, 96, count, S.encode1(q));
  }

  /** The domain is the scalar of these octets over the generators of the chain. */
  lemma DomainHashed<G1(!new), G2(!new), GT(!new)>(
      S: Suite<G1, G2, GT>, pk: Octets, header: Octets, v: seq<Octets>, o: Octets)
    requires S.Valid() && SeedChain(S, v) && 2 <= |v| < LENGTH_LIMIT && |header| < LENGTH_LIMIT
    requires DomainInput(S, o, pk, ChainPoints(S, v), header)
    ensures Domain(S, pk, |v| - 2, header) == Hashed(S, o)
  {
    hide SeedChain, DomainOctets, DomainInput;
    var g := ChainPoints(S, v);
    GeneratorsOfChain(S, v);
    assert g == [g[0]] + g[1..];
    assert |pk| == 96 by { DomainKeyLength(S, o, pk, g, header); }
    DomainInputExact(S, o, pk, g[0], g[1..], header);
  }

  lemma DomainKeyLength<G1(!new), G2(!new), GT(!new)>(
      S: Suite<G1, G2, GT>, o: Octets, pk: Octets, points: seq<G1>, header: Octets)
    requires DomainInput(S, o, pk, points, header)
    ensures |pk| == 96
  {}

  lemma DomainInputExists<G1(!new), G2(!new), GT(!new)>(
      S: Suite<G1, G2, GT>, pk: Octets, points: seq<G1>, header: Octets) returns (o: Octets)
    requires S.Valid() && |pk| == 96 && 0 < |points| < LENGTH_LIMIT && |header| < LENGTH_LIMIT
    ensures DomainInput(S, o, pk, points, header)
  {
    hide DomainInput, DomainOctets;
    o := DomainOctets(S, pk, points[0], points[1..], header);
    assert points == [points[0]] + points[1..];
    DomainInputExact(S, o, pk, points[0], points[1..], header);
  }

  /** One octet string is the domain input of one key, one count and one header. */
  lemma DomainInputDetermines<G1(!new), G2(!new), GT(!new)>(
      S: Suite<G1, G2, GT>, o: Octets, pk: Octets, points: seq<G1>, header: Octets, pk': Octets, points': seq<G1>,
      header': Octets)
    requires DomainInput(S, o, pk, points, header) && DomainInput(S, o, pk', points', header')
    ensures pk == pk' && |points| == |points'| && header == header'
  {
    hide ReadsPoints;
    SameStand(o, 0, pk, pk');
  }

  /** Equal domains come from one key, one count and one header, or from two inputs with one scalar. */
  lemma DomainBinds<G1(!new), G2(!new), GT(!new)>(
      S: Suite<G1, G2, GT>, pk: Octets, header: Octets, v: seq<Octets>, o: Octets, pk': Octets, header': Octets,
      v': seq<Octets>, o': Octets)
    requires S.Valid() && SeedChain(S, v) && 2 <= |v| < LENGTH_LIMIT && |header| < LENGTH_LIMIT
    requires SeedChain(S, v') && 2 <= |v'| < LENGTH_LIMIT && |header'| < LENGTH_LIMIT
    requires DomainInput(S, o, pk, ChainPoints(S, v), header) && DomainInput(S, o', pk', ChainPoints(S, v'), header')
    requires Domain(S, pk, |v| - 2, header) == Domain(S, pk', |v'| - 2, header')
    ensures (pk == pk' && |v| == |v'| && header == header') || Meet(S, o, o')
  {
    hide SeedChain, DomainInput, Domain, Hashed;
    DomainHashed(S, pk, header, v, o);
    DomainHashed(S, pk', header', v', o');
    if o == o' {
      DomainInputDetermines(S, o, pk, ChainPoints(S, v), header, pk', ChainPoints(S, v'), header');
    }
  }

  // ---- The scalar of a signature ----

  /** The octets of e: SK, every message scalar in order and the domain, each in 32 octets. */
  predicate SignInput(o: Octets, sk: nat, ms: seq<nat>, domain: nat)
  {
    && |o| == 32 * (|ms| + 2)
    && Reads(o, 0, 32, sk) && ReadsScalars(o, 32, ms) && Reads(o, 32 * (|ms| + 1), 32, domain)
  }

  lemma SignInputExact(o: Octets, sk: nat, ms: seq<nat>, domain: nat)
    requires sk < Pow(256, 32) && ScalarsFit(ms) && domain < Pow(256, 32)
    ensures SignInput(o, sk, ms, domain) <==> o == ScalarField(sk) + Fields(ms) + ScalarField(domain)
  {
    hide Stands, Reads, ReadsScalars, Field, Fields, Pow;
    ReadsField(o, 0, 32, sk);
    ReadsField(o, 32 * (|ms| + 1), 32, domain);
    ScalarsStand(o, 32, ms);
    StandsWhole(o, ScalarField(sk) + Fields(ms) + ScalarField(domain));
    StandsConcat(o, 0, ScalarField(sk) + Fields(ms), ScalarField(domain));
    StandsConcat(o, 0, ScalarField(sk), Fields(ms));
  }

  /** Everything that a signature's scalar is computed from. */
  datatype SignTrace = SignTrace(
    sk: nat, header: Octets, messages: seq<Octets>, scalars: seq<nat>, chain: seq<Octets>, domainInput: Octets,
    input: Octets)

  /** The trace of a call: mapped messages, generator chain, domain input and scalar input, each laid out. */
  predicate IsTrace<G1(==, !new), G2(==, !new), GT(==, !new)>(S: Suite<G1, G2, GT>, t: SignTrace)
  {
    && t.sk < S.r && |t.header| < LENGTH_LIMIT && |t.chain| < LENGTH_LIMIT
    && |t.scalars| == |t.messages| && (forall i :: 0 <= i < |t.messages| ==> t.scalars[i] == Mapped(S, t.messages[i]))
    && SeedChain(S, t.chain) && |t.chain| == |t.messages| + 2
    && DomainInput(S, t.domainInput, S.encode2(S.PublicPoint(t.sk)), ChainPoints(S, t.chain), t.header)
    && SignInput(t.input, t.sk, t.scalars, Hashed(S, t.domainInput))
  }

  lemma MappedScalars<G1(!new), G2(!new), GT(!new)>(S: Suite<G1, G2, GT>, messages: seq<Octets>, scalars: seq<nat>)
    requires |scalars| == |messages|
    requires forall i :: 0 <= i < |messages| ==> scalars[i] == Mapped(S, messages[i])
    ensures MessageScalars(S, messages) == scalars && (S.Valid() ==> ScalarsFit(scalars))
  {}

  /** The scalar of a signature is the scalar of the octets that its trace lays out. */
  lemma SignScalarHashed<G1(!new), G2(!new), GT(!new)>(S: Suite<G1, G2, GT>, t: SignTrace)
    requires S.Valid() && IsTrace(S, t)
    ensures SignScalar(S, t.sk, t.header, t.messages) == Hashed(S, t.input)
  {
    hide SeedChain, DomainInput, SignInput, Domain, Fields, ScalarField, MessageScalars;
    MappedScalars(S, t.messages, t.scalars);
    DomainHashed(S, S.encode2(S.PublicPoint(t.sk)), t.header, t.chain, t.domainInput);
    SignInputExact(t.input, t.sk, t.scalars, Hashed(S, t.domainInput));
  }

  /** Every call has a trace. */
  lemma TraceExists<G1(!new), G2(!new), GT(!new)>(
      S: Suite<G1, G2, GT>, sk: nat, header: Octets, messages: seq<Octets>) returns (t: SignTrace)
    requires S.Valid() && sk < S.r && |header| < LENGTH_LIMIT && |messages| + 2 < LENGTH_LIMIT
    ensures IsTrace(S, t) && t.sk == sk && t.header == header && t.messages == messages
  {
    hide SeedChain, DomainInput, SignInput, Fields, ScalarField;
    var scalars := seq(|messages|, i requires 0 <= i < |messages| => Mapped(S, messages[i]));
    MappedScalars(S, messages, scalars);
    var chain := ChainExists(S, |messages| + 2);
    var pk := S.encode2(S.PublicPoint(sk));
    assert S.EncodesKey(S.PublicPoint(sk));
    var domainInput := DomainInputExists(S, pk, ChainPoints(S, chain), header);
    var input := ScalarField(sk) + Fields(scalars) + ScalarField(Hashed(S, domainInput));
    SignInputExact(input, sk, scalars, Hashed(S, domainInput));
    t := SignTrace(sk, header, messages, scalars, chain, domainInput, input);
  }

  lemma SignInputDetermines(o: Octets, sk: nat, ms: seq<nat>, domain: nat, sk': nat, ms': seq<nat>, domain': nat)
    requires SignInput(o, sk, ms, domain) && SignInput(o, sk', ms', domain')
    ensures sk == sk' && ms == ms' && domain == domain'
  {
    assert |ms| == |ms'|;
    forall i | 0 <= i < |ms| ensures ms[i] == ms'[i] {
      assert Reads(o, 32 + 32 * i, 32, ms[i]) && Reads(o, 32 + 32 * i, 32, ms'[i]);
    }
  }

  /** At some position two message lists map different messages to one scalar. */
  predicate MessagesMeet<G1(==, !new), G2(==, !new), GT(==, !new)>(
      S: Suite<G1, G2, GT>, ms: seq<Octets>, ms': seq<Octets>)
  {
    exists i :: 0 <= i < |ms| && i < |ms'| && ms[i] != ms'[i] && Mapped(S, ms[i]) == Mapped(S, ms'[i])
  }

  /**
   * Equal scalars come from one key, one header and one message list, or from
   * two inputs with one scalar: of e, of the domain, or of a message.
   */
  lemma SignScalarBinds<G1(!new), G2(!new), GT(!new)>(S: Suite<G1, G2, GT>, t: SignTrace, t': SignTrace)
    requires S.Valid() && IsTrace(S, t) && IsTrace(S, t')
    requires SignScalar(S, t.sk, t.header, t.messages) == SignScalar(S, t'.sk, t'.header, t'.messages)
    ensures
      || (t.sk == t'.sk && t.header == t'.header && t.messages == t'.messages)
      || Meet(S, t.input, t'.input) || Meet(S, t.domainInput, t'.domainInput)
      || MessagesMeet(S, t.messages, t'.messages)
  {
    hide SeedChain, DomainInput, SignInput, SignScalar;
    SignScalarHashed(S, t);
    SignScalarHashed(S, t');
    if t.input == t'.input {
      SignInputDetermines(t.input, t.sk, t.scalars, Hashed(S, t.domainInput),
                          t'.sk, t'.scalars, Hashed(S, t'.domainInput));
      hide Hashed, Mapped;
      if t.domainInput == t'.domainInput {
        var pk, pk' := S.encode2(S.PublicPoint(t.sk)), S.encode2(S.PublicPoint(t'.sk));
        DomainInputDetermines(S, t.domainInput, pk, ChainPoints(S, t.chain), t.header,
                              pk', ChainPoints(S, t'.chain), t'.header);
        if t.messages != t'.messages {
          var i :| 0 <= i < |t.messages| && t.messages[i] != t'.messages[i];
          assert t.scalars[i] == t'.scalars[i];
        }
      }
    }
  }

  /**
   * The octets of a signature: the point A in 48 octets, of which (SK + e) * A
   * is B, and the scalar e of the trace in 32.
   */
  lemma SignedOctets<G1(!new), G2(!new), GT(!new)>(S: Suite<G1, G2, GT>, t: SignTrace) returns (a: G1)
    requires S.Valid() && IsTrace(S, t) && Sign(S, t.sk, t.header, t.messages).Ok?
    ensures var o := Sign(S, t.sk, t.header, t.messages).value;
      && |o| == 80 && Stands(o, 0, S.encode1(a)) && Reads(o, 48, 32, Hashed(S, t.input))
      && a != S.Zero() && S.Mul(t.sk + Hashed(S, t.input), a) == SignB(S, t.sk, t.header, t.messages)
  {
    hide Sign, IsTrace, SignScalar, SignB;
    SignScalarHashed(S, t);
    a := SignedPoint(S, t.sk, t.header, t.messages);
    var o := Sign(S, t.sk, t.header, t.messages).value;
    assert S.EncodesPoint(a);
    ReadsField(o, 48, 32, Hashed(S, t.input));
  }

  /**
   * B over a chain: P1 and the domain times Q_1 to begin with, and one product
   * of a message scalar and its own generator for every message.
   */
  lemma BValueGrows<G1(!new), G2(!new), GT(!new)>(
      S: Suite<G1, G2, GT>, v: seq<Octets>, domain: nat, ms: seq<int>, m: int)
    requires SeedChain(S, v) && |v| >= |ms| + 3
    ensures BValue(S, domain, []) == S.Add(S.p1, S.Mul(domain, S.curveHash(v[1])))
    ensures BValue(S, domain, ms + [m]) == S.Add(BValue(S, domain, ms), S.Mul(m, S.curveHash(v[|ms| + 2])))
  {
    hide SeedChain, ChainValue;
    ChainIsLoop(S, v, 1);
    ChainIsLoop(S, v, |ms| + 2);
    assert (ms + [m])[..|ms|] == ms && HPoints(S, |ms| + 1)[..|ms|] == HPoints(S, |ms|);
  }

  // ---- The challenge ----

  /**
   * The octets of the challenge: the number of pairs, the pairs, the points
   * Abar, Bbar, D, T1 and T2, the domain, and the length-prefixed header.
   */
  predicate ChallengeInput<G1(==, !new), G2(==, !new), GT(==, !new)>(
      S: Suite<G1, G2, GT>, o: Octets, t: Transcript<G1>, ms: seq<nat>, idx: seq<nat>, ph: Octets)
    requires |idx| == |ms|
  {
    var p := 8 + 40 * |idx|;
    && |o| == p + 280 + |ph|
    && Reads(o, 0, 8, |idx|) && ReadsPairs(o, 8, idx, ms)
    && Stands(o, p, S.encode1(t.abar)) && Stands(o, p + 48, S.encode1(t.bbar)) && Stands(o, p + 96, S.encode1(t.d))
    && Stands(o, p + 144, S.encode1(t.t1)) && Stands(o, p + 192, S.encode1(t.t2))
    && Reads(o, p + 240, 32, t.domain) && Reads(o, p + 272, 8, |ph|) && Stands(o, p + 280, ph)
  }

  /** Indexes, scalars, domain and lengths fit their fields. */
  predicate Fits<G1(==, !new), G2(==, !new), GT(==, !new)>(
      S: Suite<G1, G2, GT>, t: Transcript<G1>, ms: seq<nat>, idx: seq<nat>, ph: Octets)
  {
    && t.domain < S.r && |idx| == |ms| < LENGTH_LIMIT && |ph| < LENGTH_LIMIT
    && IndexesFit(idx) && ScalarsFit(ms)
  }

  lemma BodyStands<G1(!new), G2(!new), GT(!new)>(S: Suite<G1, G2, GT>, o: Octets, p: nat, t: Transcript<G1>)
    requires S.Valid() && t.domain < S.r
    ensures |Body(S, t)| == 272
    ensures Stands(o, p, Body(S, t)) <==>
      && Stands(o, p, S.encode1(t.abar)) && Stands(o, p + 48, S.encode1(t.bbar)) && Stands(o, p + 96, S.encode1(t.d))
      && Stands(o, p + 144, S.encode1(t.t1)) && Stands(o, p + 192, S.encode1(t.t2)) && Reads(o, p + 240, 32, t.domain)
  {
    assert S.EncodesPoint(t.abar) && S.EncodesPoint(t.bbar) && S.EncodesPoint(t.d);
    assert S.EncodesPoint(t.t1) && S.EncodesPoint(t.t2);
    hide Stands, Reads, Field;
    var a, b, d, t1, t2 := S.encode1(t.abar), S.encode1(t.bbar), S.encode1(t.d), S.encode1(t.t1), S.encode1(t.t2);
    ReadsField(o, p + 240, 32, t.domain);
    StandsConcat(o, p, a + b + d + t1 + t2, ScalarField(t.domain));
    StandsConcat(o, p, a + b + d + t1, t2);
    StandsConcat(o, p, a + b + d, t1);
    StandsConcat(o, p, a + b, d);
    StandsConcat(o, p, a, b);
  }

  /** They are the octets that the challenge hashes. */
  lemma ChallengeInputExact<G1(!new), G2(!new), GT(!new)>(
      S: Suite<G1, G2, GT>, o: Octets, t: Transcript<G1>, ms: seq<nat>, idx: seq<nat>, ph: Octets)
    requires S.Valid() && Fits(S, t, ms, idx, ph)
    ensures ChallengeInput(S, o, t, ms, idx, ph) <==>
      o == ChallengeOctets(S, t.abar, t.bbar, t.d, t.t1, t.t2, t.domain, ms, idx, ph)
  {
    hide Stands, Reads, ReadsPairs, Field, Pairs;
    var p, whole := 8 + 40 * |idx|, ChallengeOctets(S, t.abar, t.bbar, t.d, t.t1, t.t2, t.domain, ms, idx, ph);
    ReadsField(o, 0, 8, |idx|);
    ReadsField(o, p + 272, 8, |ph|);
    PairsStand(o, 8, idx, ms);
    BodyStands(S, o, p, t);
    ChallengeParts(S, t, ms, idx, ph);
    hide Body, ChallengeOctets;
    StandsWhole(o, whole);
    var last := Index(|ph|) + ph;
    StandsConcat(o, 0, Index(|idx|), Pairs(idx, ms) + (Body(S, t) + last));
    StandsConcat(o, 8, Pairs(idx, ms), Body(S, t) + last);
    StandsConcat(o, p, Body(S, t), last);
    StandsConcat(o, p + 272, Index(|ph|), ph);
  }

  /** The challenge is the scalar of these octets. */
  lemma ChallengeHashed<G1(!new), G2(!new), GT(!new)>(
      S: Suite<G1, G2, GT>, o: Octets, t: Transcript<G1>, ms: seq<nat>, idx: seq<nat>, ph: Octets)
    requires S.Valid() && Fits(S, t, ms, idx, ph) && ChallengeInput(S, o, t, ms, idx, ph)
    ensures ChallengeFor(S, t, ms, idx, ph) == Hashed(S, o)
  {
    hide ChallengeInput, ChallengeOctets;
    ChallengeInputExact(S, o, t, ms, idx, ph);
  }

  lemma ChallengeInputExists<G1(!new), G2(!new), GT(!new)>(
      S: Suite<G1, G2, GT>, t: Transcript<G1>, ms: seq<nat>, idx: seq<nat>, ph: Octets) returns (o: Octets)
    requires S.Valid() && Fits(S, t, ms, idx, ph)
    ensures ChallengeInput(S, o, t, ms, idx, ph)
  {
    hide ChallengeInput, ChallengeOctets;
    o := ChallengeOctets(S, t.abar, t.bbar, t.d, t.t1, t.t2, t.domain, ms, idx, ph);
    ChallengeInputExact(S, o, t, ms, idx, ph);
  }

  lemma PairsDetermine(o: Octets, at: nat, idx: seq<nat>, ms: seq<nat>, idx': seq<nat>, ms': seq<nat>)
    requires |idx| == |ms| == |idx'| == |ms'| && ReadsPairs(o, at, idx, ms) && ReadsPairs(o, at, idx', ms')
    ensures idx == idx' && ms == ms'
  {
    forall i | 0 <= i < |idx| ensures idx[i] == idx'[i] && ms[i] == ms'[i] {
      assert Reads(o, at + 40 * i, 8, idx[i]) && Reads(o, at + 40 * i, 8, idx'[i]);
      assert Reads(o, at + 40 * i + 8, 32, ms[i]) && Reads(o, at + 40 * i + 8, 32, ms'[i]);
    }
  }

  lemma PointDetermined<G1(!new), G2(!new), GT(!new)>(S: Suite<G1, G2, GT>, o: Octets, at: nat, x: G1, y: G1)
    requires S.Valid() && Stands(o, at, S.encode1(x)) && Stands(o, at, S.encode1(y))
    ensures x == y
  {
    assert S.EncodesPoint(x) && S.EncodesPoint(y);
  }

  /** One octet string is the challenge input of one transcript, one disclosure and one header. */
  lemma ChallengeInputDetermines<G1(!new), G2(!new), GT(!new)>(
      S: Suite<G1, G2, GT>, o: Octets, t: Transcript<G1>, ms: seq<nat>, idx: seq<nat>, ph: Octets, t': Transcript<G1>,
      ms': seq<nat>, idx': seq<nat>, ph': Octets)
    requires S.Valid() && |idx| == |ms| && |idx'| == |ms'|
    requires ChallengeInput(S, o, t, ms, idx, ph) && ChallengeInput(S, o, t', ms', idx', ph')
    ensures t == t' && ms == ms' && idx == idx' && ph == ph'
  {
    hide Stands, ReadsPairs;
    assert |idx| == |idx'| && |ph| == |ph'|;
    var p := 8 + 40 * |idx|;
    PairsDetermine(o, 8, idx, ms, idx', ms');
    PointDetermined(S, o, p, t.abar, t'.abar);
    PointDetermined(S, o, p + 48, t.bbar, t'.bbar);
    PointDetermined(S, o, p + 96, t.d, t'.d);
    PointDetermined(S, o, p + 144, t.t1, t'.t1);
    PointDetermined(S, o, p + 192, t.t2, t'.t2);
    SameStand(o, p + 280, ph, ph');
  }

  /**
   * Equal challenges come from one transcript, one list of disclosed pairs and
   * one header, or from two challenge inputs with one scalar.
   */
  lemma ChallengeBinds<G1(!new), G2(!new), GT(!new)>(
      S: Suite<G1, G2, GT>, o: Octets, t: Transcript<G1>, ms: seq<nat>, idx: seq<nat>, ph: Octets, o': Octets,
      t': Transcript<G1>, ms': seq<nat>, idx': seq<nat>, ph': Octets)
    requires S.Valid() && Fits(S, t, ms, idx, ph) && Fits(S, t', ms', idx', ph')
    requires ChallengeInput(S, o, t, ms, idx, ph) && ChallengeInput(S, o', t', ms', idx', ph')
    requires ChallengeFor(S, t, ms, idx, ph) == ChallengeFor(S, t', ms', idx', ph')
    ensures (t == t' && ms == ms' && idx == idx' && ph == ph') || Meet(S, o, o')
  {
    hide ChallengeInput, ChallengeFor, Hashed;
    ChallengeHashed(S, o, t, ms, idx, ph);
    ChallengeHashed(S, o', t', ms', idx', ph');
    if o == o' {
      ChallengeInputDetermines(S, o, t, ms, idx, ph, t', ms', idx', ph');
    }
  }
}
