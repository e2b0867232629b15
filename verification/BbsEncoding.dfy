// Octet formats of BBS: signatures and proofs parse back to what was
// serialized, and the octet strings that are hashed into the domain and the
// challenge determine every input.
module BbsEncoding {
  import opened Arithmetic
  import opened Octets
  import opened Results
  import opened Groups
  import opened Bbs

  // ---- Fields ----

  lemma FieldLength(v: nat, len: nat)
    requires v < Pow(256, len)
    ensures |Field(v, len)| == len && Os2ip(Field(v, len)) == v
  {
    Os2ipOfI2osp(v, len);
  }

  lemma FieldInjective(v: nat, w: nat, len: nat)
    requires v < Pow(256, len) && w < Pow(256, len) && Field(v, len) == Field(w, len)
    ensures v == w
  {
    FieldLength(v, len);
    FieldLength(w, len);
  }

  /** Two concatenations with equally long heads agree part by part. */
  lemma SplitHead<T>(a: seq<T>, b: seq<T>, c: seq<T>, d: seq<T>)
    requires |a| == |c| && a + b == c + d
    ensures a == c && b == d
  {
    assert a == (a + b)[..|a|] && c == (c + d)[..|a|];
    assert b == (a + b)[|a|..] && d == (c + d)[|a|..];
  }

  predicate ScalarsFit(vs: seq<nat>)
  {
    forall i :: 0 <= i < |vs| ==> vs[i] < Pow(256, SCALAR_LEN)
  }

  lemma {:induction false} FieldsLength(vs: seq<nat>)
    requires ScalarsFit(vs)
    ensures |Fields(vs)| == SCALAR_LEN * |vs|
  {
    if |vs| > 0 {
      FieldsLength(vs[..|vs| - 1]);
      FieldLength(vs[|vs| - 1], SCALAR_LEN);
    }
  }

  lemma {:induction false} PointFieldsLength<G1(!new), G2(!new), GT(!new)>(S: Suite<G1, G2, GT>, xs: seq<G1>)
    requires S.Valid()
    ensures |PointFields(S, xs)| == POINT_LEN * |xs|
  {
    if |xs| > 0 {
      PointFieldsLength(S, xs[..|xs| - 1]);
      assert S.EncodesPoint(xs[|xs| - 1]);
    }
  }

  lemma EncodeInjective<G1(!new), G2(!new), GT(!new)>(S: Suite<G1, G2, GT>, x: G1, y: G1)
    requires S.Valid() && S.encode1(x) == S.encode1(y)
    ensures x == y
  {
    assert S.EncodesPoint(x) && S.EncodesPoint(y);
  }

  lemma {:induction false} PointFieldsInjective<G1(!new), G2(!new), GT(!new)>(
      S: Suite<G1, G2, GT>, xs: seq<G1>, ys: seq<G1>)
    requires S.Valid() && |xs| == |ys| && PointFields(S, xs) == PointFields(S, ys)
    ensures xs == ys
  {
    if |xs| > 0 {
      var n := |xs| - 1;
      PointFieldsLength(S, xs[..n]);
      PointFieldsLength(S, ys[..n]);
      SplitHead(PointFields(S, xs[..n]), S.encode1(xs[n]), PointFields(S, ys[..n]), S.encode1(ys[n]));
      PointFieldsInjective(S, xs[..n], ys[..n]);
      EncodeInjective(S, xs[n], ys[n]);
      assert xs == xs[..n] + [xs[n]] && ys == ys[..n] + [ys[n]];
    }
  }

  // ---- Signatures ----

  lemma SignatureRoundTrip<G1(!new), G2(!new), GT(!new)>(S: Suite<G1, G2, GT>, a: G1, e: nat)
    requires S.Valid() && a != S.Zero() && 0 < e < S.r
    ensures OctetsToSignature(S, S.encode1(a) + ScalarField(e)) == Some(Signature(a, e))
  {
    var o := S.encode1(a) + ScalarField(e);
    assert S.EncodesPoint(a);
    FieldLength(e, SCALAR_LEN);
    assert o[..POINT_LEN] == S.encode1(a) && o[POINT_LEN..] == ScalarField(e);
  }

  // ---- Proofs ----

  function ProofScalars<G1(==, !new)>(p: Proof<G1>): seq<nat>
  {
    [p.eHat, p.r1Hat, p.r3Hat] + p.commitments + [p.challenge]
  }

  /** _proof_to_octets */
  function ProofToOctets<G1(==, !new), G2(==, !new), GT(==, !new)>(S: Suite<G1, G2, GT>, p: Proof<G1>): Octets
  {
    S.encode1(p.abar) + S.encode1(p.bbar) + S.encode1(p.d)
    + Fields(ProofScalars(p))
  }

  /** The accumulation loop of _proof_to_octets. */
  method ProofToOctetsLoop<G1(==, !new), G2(==, !new), GT(==, !new)>(S: Suite<G1, G2, GT>, p: Proof<G1>)
    returns (out: Octets)
    ensures out == ProofToOctets(S, p)
  {
    hide Fields, ScalarField;
    var points := S.encode1(p.abar) + S.encode1(p.bbar) + S.encode1(p.d);
    out := points + ScalarField(p.eHat) + ScalarField(p.r1Hat) + ScalarField(p.r3Hat);
    var head := [p.eHat, p.r1Hat, p.r3Hat];
    FieldsOfThree(p.eHat, p.r1Hat, p.r3Hat);
    assert out == points + Fields(head);
    assert head + p.commitments[..0] == head;
    for i := 0 to |p.commitments|
      invariant out == points + Fields(head + p.commitments[..i])
    {
      FieldsAppend(head + p.commitments[..i], p.commitments[i]);
      assert head + p.commitments[..i] + [p.commitments[i]] == head + p.commitments[..i + 1];
      out := out + ScalarField(p.commitments[i]);
    }
    assert p.commitments[..|p.commitments|] == p.commitments;
    FieldsAppend(head + p.commitments, p.challenge);
    out := out + ScalarField(p.challenge);
  }

  lemma FieldsAppend(vs: seq<nat>, v: nat)
    ensures Fields(vs + [v]) == Fields(vs) + ScalarField(v)
  {
    assert (vs + [v])[..|vs|] == vs;
  }

  lemma FieldsOfThree(x: nat, y: nat, z: nat)
    ensures Fields([x, y, z]) == ScalarField(x) + ScalarField(y) + ScalarField(z)
  {
    FieldsAppend([], x);
    FieldsAppend([x], y);
    FieldsAppend([x, y], z);
    assert [] + [x] == [x] && [x] + [y] == [x, y] && [x, y] + [z] == [x, y, z];
  }

  /** The scalar section: None on a zero or out-of-range scalar. */
  function ParseScalars<G1(==, !new), G2(==, !new), GT(==, !new)>(
      S: Suite<G1, G2, GT>, o: Octets): (r: Option<seq<nat>>)
    requires |o| % SCALAR_LEN == 0
    ensures r.Some? ==> |r.value| == |o| / SCALAR_LEN
  {
    if |o| == 0 then Some([])
    else
      var n := |o| - SCALAR_LEN;
      var s := Os2ip(o[n..]);
      match ParseScalars(S, o[..n])
      case None => None
      case Some(rest) => if s == 0 || s >= S.r then None else Some(rest + [s])
  }

  function ParsePoint<G1(==, !new), G2(==, !new), GT(==, !new)>(S: Suite<G1, G2, GT>, o: Octets): Option<G1>
  {
    match OctetsToPoint(S, o)
    case None => None
    case Some(x) => if x == S.Zero() then None else Some(x)
  }

  /** _octets_to_proof */
  function OctetsToProof<G1(==, !new), G2(==, !new), GT(==, !new)>(S: Suite<G1, G2, GT>, o: Octets): Option<Proof<G1>>
  {
    if |o| < 3 * POINT_LEN + 4 * SCALAR_LEN || (|o| - 3 * POINT_LEN) % SCALAR_LEN != 0 then None
    else
      var abar := ParsePoint(S, o[..POINT_LEN]);
      var bbar := ParsePoint(S, o[POINT_LEN..2 * POINT_LEN]);
      var d := ParsePoint(S, o[2 * POINT_LEN..3 * POINT_LEN]);
      var scalars := ParseScalars(S, o[3 * POINT_LEN..]);
      if abar.None? || bbar.None? || d.None? || scalars.None? then None
      else
        var s := scalars.value;
        Some(Proof(abar.value, bbar.value, d.value, s[0], s[1], s[2], s[3..|s| - 1], s[|s| - 1]))
  }

  /** _octets_to_proof: three points, then the loop over the scalars. */
  method OctetsToProofLoop<G1(==, !new), G2(==, !new), GT(==, !new)>(S: Suite<G1, G2, GT>, o: Octets)
    returns (res: Option<Proof<G1>>)
    ensures res == OctetsToProof(S, o)
  {
    if |o| < 3 * POINT_LEN + 4 * SCALAR_LEN || (|o| - 3 * POINT_LEN) % SCALAR_LEN != 0 {
      return None;
    }
    hide ParseScalars, ParsePoint;
    var abar, bbar := ParsePoint(S, o[..POINT_LEN]), ParsePoint(S, o[POINT_LEN..2 * POINT_LEN]);
    var d := ParsePoint(S, o[2 * POINT_LEN..3 * POINT_LEN]);
    if abar.None? || bbar.None? || d.None? {
      return None;
    }
    var scalars := ParseScalarsLoop(S, o[3 * POINT_LEN..]);
    if scalars.None? {
      return None;
    }
    var s := scalars.value;
    return Some(Proof(abar.value, bbar.value, d.value, s[0], s[1], s[2], s[3..|s| - 1], s[|s| - 1]));
  }

  lemma ParseNothing<G1(!new), G2(!new), GT(!new)>(S: Suite<G1, G2, GT>, o: Octets)
    requires |o| == 0
    ensures ParseScalars(S, o) == Some([])
  {}

  /** The loop over the scalar section, 32 octets at a time. */
  method ParseScalarsLoop<G1(==, !new), G2(==, !new), GT(==, !new)>(S: Suite<G1, G2, GT>, body: Octets)
    returns (res: Option<seq<nat>>)
    requires |body| % SCALAR_LEN == 0
    ensures res == ParseScalars(S, body)
  {
    hide Os2ip, ParseScalars;
    var scalars: seq<nat> := [];
    var index := 0;
    assert ParseScalars(S, body[..0]) == Some([]) by {
      ParseNothing(S, body[..0]);
    }
    while index < |body|
      invariant index <= |body| && index % SCALAR_LEN == 0
      invariant ParseScalars(S, body[..index]) == Some(scalars)
    {
      var s := Os2ip(body[index..index + SCALAR_LEN]);
      ParseAppend(S, body[..index], body[index..index + SCALAR_LEN]);
      assert body[..index] + body[index..index + SCALAR_LEN] == body[..index + SCALAR_LEN];
      if s == 0 || s >= S.r {
        ParseScalarsPrefix(S, body, index + SCALAR_LEN);
        return None;
      }
      scalars := scalars + [s];
      index := index + SCALAR_LEN;
    }
    assert body[..|body|] == body;
    return Some(scalars);
  }

  /** One more field at the end of a scalar section. */
  lemma ParseAppend<G1(!new), G2(!new), GT(!new)>(S: Suite<G1, G2, GT>, o: Octets, f: Octets)
    requires |o| % SCALAR_LEN == 0 && |f| == SCALAR_LEN
    ensures |o + f| % SCALAR_LEN == 0
    ensures ParseScalars(S, o + f) ==
      var rest := ParseScalars(S, o);
      if rest.None? || Os2ip(f) == 0 || Os2ip(f) >= S.r then None else Some(rest.value + [Os2ip(f)])
  {
    assert (o + f)[..|o|] == o && (o + f)[|o|..] == f;
  }

  /** A section with a bad prefix does not parse. */
  lemma {:induction false} ParseScalarsPrefix<G1(!new), G2(!new), GT(!new)>(
      S: Suite<G1, G2, GT>, body: Octets, index: nat)
    requires |body| % SCALAR_LEN == 0 && index <= |body| && index % SCALAR_LEN == 0
    requires ParseScalars(S, body[..index]).None?
    ensures ParseScalars(S, body).None?
    decreases |body| - index
  {
    hide ParseScalars;
    if index == |body| {
      assert body[..index] == body;
    } else {
      var next := index + SCALAR_LEN;
      ParseAppend(S, body[..index], body[index..next]);
      assert body[..index] + body[index..next] == body[..next];
      ParseScalarsPrefix(S, body, next);
    }
  }

  predicate ScalarsInRange<G1(==, !new), G2(==, !new), GT(==, !new)>(S: Suite<G1, G2, GT>, vs: seq<nat>)
  {
    forall i :: 0 <= i < |vs| ==> 0 < vs[i] < S.r
  }

  predicate ScalarsBelow<G1(==, !new), G2(==, !new), GT(==, !new)>(S: Suite<G1, G2, GT>, vs: seq<nat>)
  {
    forall i :: 0 <= i < |vs| ==> vs[i] < S.r
  }

  lemma RangeAppend<G1(!new), G2(!new), GT(!new)>(S: Suite<G1, G2, GT>, vs: seq<nat>, v: nat)
    ensures ScalarsInRange(S, vs + [v]) <==> ScalarsInRange(S, vs) && 0 < v < S.r
  {
    assert (vs + [v])[|vs|] == v && (vs + [v])[..|vs|] == vs;
    assert forall i :: 0 <= i < |vs| ==> (vs + [v])[i] == vs[i];
  }

  /** The scalar section of reduced scalars parses back exactly when none of them is zero. */
  lemma EmptyFields<G1(!new), G2(!new), GT(!new)>(S: Suite<G1, G2, GT>)
    ensures Fields([]) == [] && ParseScalars(S, []) == Some([]) && ScalarsInRange(S, [])
  {}

  lemma ScalarFieldLength<G1(!new), G2(!new), GT(!new)>(S: Suite<G1, G2, GT>, v: nat)
    requires S.Valid() && v < S.r
    ensures |ScalarField(v)| == SCALAR_LEN && Os2ip(ScalarField(v)) == v
  {
    FieldLength(v, SCALAR_LEN);
  }

  lemma {:induction false} ParseFields<G1(!new), G2(!new), GT(!new)>(S: Suite<G1, G2, GT>, vs: seq<nat>)
    requires S.Valid() && ScalarsBelow(S, vs)
    ensures |Fields(vs)| == SCALAR_LEN * |vs|
    ensures ParseScalars(S, Fields(vs)) == if ScalarsInRange(S, vs) then Some(vs) else None
  {
    hide ParseScalars, ScalarField, Fields, ScalarsInRange, Os2ip, IsPairing, Pow;
    if |vs| == 0 {
      EmptyFields(S);
      assert vs == [];
    } else {
      var front, v := vs[..|vs| - 1], vs[|vs| - 1];
      ParseFields(S, front);
      ScalarFieldLength(S, v);
      FieldsAppend(front, v);
      ParseAppend(S, Fields(front), ScalarField(v));
      RangeAppend(S, front, v);
      assert vs == front + [v];
    }
  }

  /** What the parser demands of a proof: no identity point, no zero or large scalar. */
  predicate WellFormed<G1(==, !new), G2(==, !new), GT(==, !new)>(S: Suite<G1, G2, GT>, p: Proof<G1>)
  {
    && p.abar != S.Zero() && p.bbar != S.Zero() && p.d != S.Zero()
    && 0 < p.eHat < S.r && 0 < p.r1Hat < S.r && 0 < p.r3Hat < S.r && 0 < p.challenge < S.r
    && ScalarsInRange(S, p.commitments)
  }

  lemma ParsePointRoundTrip<G1(!new), G2(!new), GT(!new)>(S: Suite<G1, G2, GT>, x: G1)
    requires S.Valid() && x != S.Zero()
    ensures |S.encode1(x)| == POINT_LEN && ParsePoint(S, S.encode1(x)) == Some(x)
  {
    assert S.EncodesPoint(x);
  }

  /**
   * Parsing inverts serialization for any number of hidden messages; a proof
   * of nonidentity points and reduced scalars fails to parse exactly when one
   * of its scalars is zero.
   */
  lemma ProofRoundTrip<G1(!new), G2(!new), GT(!new)>(S: Suite<G1, G2, GT>, p: Proof<G1>)
    requires S.Valid() && p.abar != S.Zero() && p.bbar != S.Zero() && p.d != S.Zero()
    requires ScalarsBelow(S, ProofScalars(p))
    ensures OctetsToProof(S, ProofToOctets(S, p)) == if WellFormed(S, p) then Some(p) else None
  {
    hide ParseScalars, ParsePoint, Fields, WellFormed;
    var s := ProofScalars(p);
    var o := ProofToOctets(S, p);
    ParsePointRoundTrip(S, p.abar);
    ParsePointRoundTrip(S, p.bbar);
    ParsePointRoundTrip(S, p.d);
    ParseFields(S, s);
    assert o[..POINT_LEN] == S.encode1(p.abar);
    assert o[POINT_LEN..2 * POINT_LEN] == S.encode1(p.bbar);
    assert o[2 * POINT_LEN..3 * POINT_LEN] == S.encode1(p.d);
    assert o[3 * POINT_LEN..] == Fields(s);
    WellFormedScalars(S, p);
    assert s[3..|s| - 1] == p.commitments;
  }

  lemma WellFormedScalars<G1(!new), G2(!new), GT(!new)>(S: Suite<G1, G2, GT>, p: Proof<G1>)
    requires p.abar != S.Zero() && p.bbar != S.Zero() && p.d != S.Zero()
    ensures WellFormed(S, p) <==> ScalarsInRange(S, ProofScalars(p))
  {
    var s := ProofScalars(p);
    assert s[0] == p.eHat && s[1] == p.r1Hat && s[2] == p.r3Hat && s[|s| - 1] == p.challenge;
    assert forall i :: 0 <= i < |p.commitments| ==> p.commitments[i] == s[i + 3];
    assert forall i :: 3 <= i < |s| - 1 ==> s[i] == p.commitments[i - 3];
  }

  /** The parser returns well-formed proofs only. */
  lemma ParsedWellFormed<G1(!new), G2(!new), GT(!new)>(S: Suite<G1, G2, GT>, o: Octets)
    requires OctetsToProof(S, o).Some?
    ensures WellFormed(S, OctetsToProof(S, o).value)
  {
    hide ParseScalars, ParsePoint;
    ParsedPointNonzero(S, o[..POINT_LEN]);
    ParsedPointNonzero(S, o[POINT_LEN..2 * POINT_LEN]);
    ParsedPointNonzero(S, o[2 * POINT_LEN..3 * POINT_LEN]);
    ParsedScalarsInRange(S, o[3 * POINT_LEN..]);
    var s := ParseScalars(S, o[3 * POINT_LEN..]).value;
    assert 0 < s[0] < S.r && 0 < s[1] < S.r && 0 < s[2] < S.r && 0 < s[|s| - 1] < S.r;
  }

  lemma ParsedPointNonzero<G1(!new), G2(!new), GT(!new)>(S: Suite<G1, G2, GT>, o: Octets)
    ensures ParsePoint(S, o).Some? ==> ParsePoint(S, o).value != S.Zero()
  {
  }

  lemma {:induction false} ParsedScalarsInRange<G1(!new), G2(!new), GT(!new)>(S: Suite<G1, G2, GT>, o: Octets)
    requires |o| % SCALAR_LEN == 0 && ParseScalars(S, o).Some?
    ensures ScalarsInRange(S, ParseScalars(S, o).value)
  {
    if |o| > 0 {
      ParsedScalarsInRange(S, o[..|o| - SCALAR_LEN]);
    }
  }

  // ---- The hashed transcripts ----

  const LENGTH_LIMIT: nat := Pow(256, INDEX_LEN)

  /** A length prefix and what follows it are determined together. */
  lemma LengthPrefixed(a: Octets, b: Octets)
    requires |a| < LENGTH_LIMIT && |b| < LENGTH_LIMIT
    requires Index(|a|) + a == Index(|b|) + b
    ensures a == b
  {
    FieldLength(|a|, INDEX_LEN);
    FieldLength(|b|, INDEX_LEN);
    SplitHead(Index(|a|), a, Index(|b|), b);
  }

  /** The domain octets determine the key, the generators and the header. */
  lemma DomainOctetsInjective<G1(!new), G2(!new), GT(!new)>(
      S: Suite<G1, G2, GT>, pk: Octets, q: G1, hs: seq<G1>, header: Octets, pk': Octets, q': G1, hs': seq<G1>,
      header': Octets)
    requires S.Valid() && |pk| == |pk'|
    requires |hs| < LENGTH_LIMIT && |hs'| < LENGTH_LIMIT && |header| < LENGTH_LIMIT && |header'| < LENGTH_LIMIT
    requires DomainOctets(S, pk, q, hs, header) == DomainOctets(S, pk', q', hs', header')
    ensures pk == pk' && q == q' && hs == hs' && header == header'
  {
    var t := PointFields(S, hs) + S.apiId + (Index(|header|) + header);
    var t' := PointFields(S, hs') + S.apiId + (Index(|header'|) + header');
    DomainParts(S, pk, q, hs, header);
    DomainParts(S, pk', q', hs', header');
    SplitHead(pk, Index(|hs|) + (S.encode1(q) + t), pk', Index(|hs'|) + (S.encode1(q') + t'));
    FieldLength(|hs|, INDEX_LEN);
    FieldLength(|hs'|, INDEX_LEN);
    SplitHead(Index(|hs|), S.encode1(q) + t, Index(|hs'|), S.encode1(q') + t');
    assert S.EncodesPoint(q) && S.EncodesPoint(q');
    SplitHead(S.encode1(q), t, S.encode1(q'), t');
    PointFieldsLength(S, hs);
    PointFieldsLength(S, hs');
    SplitHead(PointFields(S, hs) + S.apiId, Index(|header|) + header, PointFields(S, hs') + S.apiId,
        Index(|header'|) + header');
    SplitHead(PointFields(S, hs), S.apiId, PointFields(S, hs'), S.apiId);
    PointFieldsInjective(S, hs, hs');
    LengthPrefixed(header, header');
  }

  lemma DomainParts<G1(!new), G2(!new), GT(!new)>(S: Suite<G1, G2, GT>, pk: Octets, q: G1, hs: seq<G1>, header: Octets)
    ensures DomainOctets(S, pk, q, hs, header)
         == pk + (Index(|hs|) + (S.encode1(q) + (PointFields(S, hs) + S.apiId + (Index(|header|) + header))))
  {
    hide PointFields, Index, Field;
    Regroup(pk, Index(|hs|), S.encode1(q), PointFields(S, hs), S.apiId, Index(|header|), header);
  }

  lemma Append3(x: Octets, y: Octets, z: Octets)
    ensures (x + y) + z == x + (y + z)
  {}

  lemma Regroup(a: Octets, b: Octets, c: Octets, d: Octets, e: Octets, f: Octets, g: Octets)
    ensures a + (b + c + d + e) + f + g == a + (b + (c + (d + e + (f + g))))
  {
    var t := f + g;
    Append3(a + (b + c + d + e), f, g);
    Append3(a, b + c + d + e, t);
    Append3(b + c, d, e);
    Append3(b + c, d + e, t);
    Append3(b, c, d + e + t);
  }

  predicate IndexesFit(idx: seq<nat>)
  {
    forall i :: 0 <= i < |idx| ==> idx[i] < LENGTH_LIMIT
  }

  lemma {:induction false} PairsLength(idx: seq<nat>, ms: seq<nat>)
    requires |idx| == |ms| && IndexesFit(idx) && ScalarsFit(ms)
    ensures |Pairs(idx, ms)| == (INDEX_LEN + SCALAR_LEN) * |idx|
  {
    if |idx| > 0 {
      var n := |idx| - 1;
      PairsLength(idx[..n], ms[..n]);
      FieldLength(idx[n], INDEX_LEN);
      FieldLength(ms[n], SCALAR_LEN);
    }
  }

  lemma {:induction false} PairsInjective(idx: seq<nat>, ms: seq<nat>, idx': seq<nat>, ms': seq<nat>)
    requires |idx| == |ms| == |idx'| == |ms'|
    requires IndexesFit(idx) && ScalarsFit(ms) && IndexesFit(idx') && ScalarsFit(ms')
    requires Pairs(idx, ms) == Pairs(idx', ms')
    ensures idx == idx' && ms == ms'
  {
    hide Pairs, Field, Index, ScalarField, Pow;
    if |idx| > 0 {
      var n := |idx| - 1;
      PairsStep(idx, ms);
      PairsStep(idx', ms');
      SplitHead(Pairs(idx[..n], ms[..n]), Index(idx[n]) + ScalarField(ms[n]),
                Pairs(idx'[..n], ms'[..n]), Index(idx'[n]) + ScalarField(ms'[n]));
      PairsInjective(idx[..n], ms[..n], idx'[..n], ms'[..n]);
      PairFieldsInjective(idx[n], ms[n], idx'[n], ms'[n]);
      assert idx == idx[..n] + [idx[n]] && idx' == idx'[..n] + [idx'[n]];
      assert ms == ms[..n] + [ms[n]] && ms' == ms'[..n] + [ms'[n]];
    }
  }

  lemma PairsStep(idx: seq<nat>, ms: seq<nat>)
    requires 0 < |idx| == |ms| && IndexesFit(idx) && ScalarsFit(ms)
    ensures var n := |idx| - 1;
      && Pairs(idx, ms) == Pairs(idx[..n], ms[..n]) + (Index(idx[n]) + ScalarField(ms[n]))
      && |Pairs(idx[..n], ms[..n])| == (INDEX_LEN + SCALAR_LEN) * n
  {
    PairsLength(idx[..|idx| - 1], ms[..|idx| - 1]);
  }

  lemma PairFieldsInjective(i: nat, m: nat, i': nat, m': nat)
    requires i < LENGTH_LIMIT && i' < LENGTH_LIMIT && m < Pow(256, SCALAR_LEN) && m' < Pow(256, SCALAR_LEN)
    requires Index(i) + ScalarField(m) == Index(i') + ScalarField(m')
    ensures i == i' && m == m'
  {
    FieldLength(i, INDEX_LEN);
    FieldLength(i', INDEX_LEN);
    SplitHead(Index(i), ScalarField(m), Index(i'), ScalarField(m'));
    FieldInjective(i, i', INDEX_LEN);
    FieldInjective(m, m', SCALAR_LEN);
  }

  function Body<G1(==, !new), G2(==, !new), GT(==, !new)>(S: Suite<G1, G2, GT>, t: Transcript<G1>): Octets
  {
    S.encode1(t.abar) + S.encode1(t.bbar) + S.encode1(t.d) + S.encode1(t.t1) + S.encode1(t.t2) + ScalarField(t.domain)
  }

  lemma BodyInjective<G1(!new), G2(!new), GT(!new)>(S: Suite<G1, G2, GT>, t: Transcript<G1>, t': Transcript<G1>)
    requires S.Valid() && t.domain < S.r && t'.domain < S.r
    ensures |Body(S, t)| == 5 * POINT_LEN + SCALAR_LEN
    ensures Body(S, t) == Body(S, t') ==> t == t'
  {
    BodyFields(S, t);
    BodyFields(S, t');
    var b, b' := Body(S, t), Body(S, t');
    if b == b' {
      EncodeInjective(S, t.abar, t'.abar);
      EncodeInjective(S, t.bbar, t'.bbar);
      EncodeInjective(S, t.d, t'.d);
      EncodeInjective(S, t.t1, t'.t1);
      EncodeInjective(S, t.t2, t'.t2);
      FieldInjective(t.domain, t'.domain, SCALAR_LEN);
    }
  }

  lemma BodyFields<G1(!new), G2(!new), GT(!new)>(S: Suite<G1, G2, GT>, t: Transcript<G1>)
    requires S.Valid() && t.domain < S.r
    ensures |Body(S, t)| == 5 * POINT_LEN + SCALAR_LEN
    ensures var b := Body(S, t);
      && b[..POINT_LEN] == S.encode1(t.abar) && b[POINT_LEN..2 * POINT_LEN] == S.encode1(t.bbar)
      && b[2 * POINT_LEN..3 * POINT_LEN] == S.encode1(t.d) && b[3 * POINT_LEN..4 * POINT_LEN] == S.encode1(t.t1)
      && b[4 * POINT_LEN..5 * POINT_LEN] == S.encode1(t.t2) && b[5 * POINT_LEN..] == ScalarField(t.domain)
  {
    assert S.EncodesPoint(t.abar) && S.EncodesPoint(t.bbar) && S.EncodesPoint(t.d);
    assert S.EncodesPoint(t.t1) && S.EncodesPoint(t.t2);
    FieldLength(t.domain, SCALAR_LEN);
    hide Field, ScalarField;
    var a, b, c, x, y := S.encode1(t.abar), S.encode1(t.bbar), S.encode1(t.d), S.encode1(t.t1), S.encode1(t.t2);
    SixFields(a, b, c, x, y, ScalarField(t.domain));
  }

  lemma SixFields(a: Octets, b: Octets, c: Octets, x: Octets, y: Octets, z: Octets)
    requires |a| == |b| == |c| == |x| == |y| == POINT_LEN && |z| == SCALAR_LEN
    ensures var o := a + b + c + x + y + z;
      && o[..POINT_LEN] == a && o[POINT_LEN..2 * POINT_LEN] == b && o[2 * POINT_LEN..3 * POINT_LEN] == c
      && o[3 * POINT_LEN..4 * POINT_LEN] == x && o[4 * POINT_LEN..5 * POINT_LEN] == y && o[5 * POINT_LEN..] == z
  {}

  /** The challenge octets determine the points, the domain, the disclosed pairs and the header. */
  lemma ChallengeOctetsInjective<G1(!new), G2(!new), GT(!new)>(
      S: Suite<G1, G2, GT>, t: Transcript<G1>, ms: seq<nat>, idx: seq<nat>, ph: Octets, t': Transcript<G1>,
      ms': seq<nat>, idx': seq<nat>, ph': Octets)
    requires S.Valid() && t.domain < S.r && t'.domain < S.r
    requires |idx| == |ms| < LENGTH_LIMIT && |idx'| == |ms'| < LENGTH_LIMIT
    requires IndexesFit(idx) && ScalarsFit(ms) && IndexesFit(idx') && ScalarsFit(ms')
    requires |ph| < LENGTH_LIMIT && |ph'| < LENGTH_LIMIT
    requires ChallengeOctets(S, t.abar, t.bbar, t.d, t.t1, t.t2, t.domain, ms, idx, ph)
          == ChallengeOctets(S, t'.abar, t'.bbar, t'.d, t'.t1, t'.t2, t'.domain, ms', idx', ph')
    ensures t == t' && ms == ms' && idx == idx' && ph == ph'
  {
    var tail, tail' := Body(S, t) + (Index(|ph|) + ph), Body(S, t') + (Index(|ph'|) + ph');
    FieldLength(|idx|, INDEX_LEN);
    FieldLength(|idx'|, INDEX_LEN);
    assert Index(|idx|) + (Pairs(idx, ms) + tail) == Index(|idx'|) + (Pairs(idx', ms') + tail') by {
      ChallengeParts(S, t, ms, idx, ph);
      ChallengeParts(S, t', ms', idx', ph');
    }
    SplitHead(Index(|idx|), Pairs(idx, ms) + tail, Index(|idx'|), Pairs(idx', ms') + tail');
    PairsLength(idx, ms);
    PairsLength(idx', ms');
    SplitHead(Pairs(idx, ms), tail, Pairs(idx', ms'), tail');
    PairsInjective(idx, ms, idx', ms');
    BodyInjective(S, t, t');
    BodyInjective(S, t', t);
    SplitHead(Body(S, t), Index(|ph|) + ph, Body(S, t'), Index(|ph'|) + ph');
    LengthPrefixed(ph, ph');
  }

  lemma ChallengeParts<G1(!new), G2(!new), GT(!new)>(
      S: Suite<G1, G2, GT>, t: Transcript<G1>, ms: seq<nat>, idx: seq<nat>, ph: Octets)
    requires |idx| == |ms|
    ensures ChallengeOctets(S, t.abar, t.bbar, t.d, t.t1, t.t2, t.domain, ms, idx, ph)
         == Index(|idx|) + (Pairs(idx, ms) + (Body(S, t) + (Index(|ph|) + ph)))
  {}
}
