// Signatures and proofs as octet strings: what bbs_verify and
// bbs_proof_verify accept, and what bbs_proof_gen returns, field by field.
module BbsWire {
  import opened Arithmetic
  import opened Octets
  import opened Results
  import opened Sums
  import opened Bbs
  import opened BbsEncoding
  import opened BbsProtocol
  import opened BbsLayout

  // ---- Signatures and proofs as octets ----

  lemma KeyParses<G1(!new), G2(!new), GT(!new)>(S: Suite<G1, G2, GT>, pk: Octets)
    ensures OctetsToKey(S, pk).None? <==>
      |pk| != 96 || S.decode2(pk).None? || S.decode2(pk).value == S.pairing.g2.zero
    ensures OctetsToKey(S, pk).Some? ==> OctetsToKey(S, pk) == S.decode2(pk)
  {}

  /** bbs_verify raises exactly for a key that is not 96 octets of a nonidentity point. */
  lemma VerifyRaises<G1(!new), G2(!new), GT(!new)>(
      S: Suite<G1, G2, GT>, pk: Octets, signature: Octets, header: Octets, messages: seq<Octets>)
    ensures var r := Verify(S, pk, signature, header, messages);
      && (r.Err? <==> |pk| != 96 || S.decode2(pk).None? || S.decode2(pk).value == S.pairing.g2.zero)
      && (r.Err? ==> r.error.BbsError?)
  {
    KeyParses(S, pk);
    hide OctetsToKey, OctetsToSignature, BValue, Domain, MessageScalars, PairingCheck;
  }

  /**
   * bbs_verify on octets: the accepted signatures are the 80 octets of a
   * nonidentity point A and a scalar e in [1, r - 1] with (SK + e) * A = B.
   */
  lemma AcceptedSignatures<G1(!new), G2(!new), GT(!new)>(
      S: Suite<G1, G2, GT>, sk: nat, signature: Octets, header: Octets, messages: seq<Octets>)
    requires S.Valid() && 0 < sk < S.r
    ensures Verify(S, S.encode2(S.PublicPoint(sk)), signature, header, messages) == Ok(true) <==>
      && |signature| == 80
      && var a, e := S.decode1(signature[..48]), Os2ip(signature[48..]);
      && a.Some? && a.value != S.Zero() && 0 < e < S.r
      && S.Mul(sk + e, a.value) == SignB(S, sk, header, messages)
  {
    hide SignB, Verify;
    VerifyExact(S, sk, signature, header, messages);
  }

  lemma SnocEqual<T>(s: seq<T>, x: T, t: seq<T>, y: T)
    ensures s + [x] == t + [y] <==> s == t && x == y
  {
    if s + [x] == t + [y] {
      assert s == (s + [x])[..|s|] && t == (t + [y])[..|t|] && |s| == |t|;
      assert x == (s + [x])[|s|] && y == (t + [y])[|t|];
    }
  }

  /** A scalar section parses to the scalars that its fields read as, all in [1, r - 1]. */
  lemma {:induction false} ScalarsParse<G1(!new), G2(!new), GT(!new)>(S: Suite<G1, G2, GT>, o: Octets, vs: seq<nat>)
    requires |o| % 32 == 0
    ensures ParseScalars(S, o) == Some(vs) <==>
      |o| == 32 * |vs| && ReadsScalars(o, 0, vs) && ScalarsInRange(S, vs)
  {
    hide *;
    if |vs| == 0 || |o| == 0 {
      NoScalars(S, o, vs);
    } else if |o| == 32 * |vs| {
      var n, front, last := |o| - 32, vs[..|vs| - 1], vs[|vs| - 1];
      ScalarsParse(S, o[..n], front);
      LastParsed(S, o[..n], o[n..], front, last);
      assert o == o[..n] + o[n..] && vs == front + [last];
      LastScalar(o, 0, vs);
      LastRead(o, n, last);
      PrefixScalars(o, n, front);
    } else {
      ParsedCount(S, o);
    }
  }

  lemma NoScalars<G1(!new), G2(!new), GT(!new)>(S: Suite<G1, G2, GT>, o: Octets, vs: seq<nat>)
    requires |o| % 32 == 0 && (|vs| == 0 || |o| == 0)
    ensures ParseScalars(S, o) == Some(vs) <==>
      |o| == 32 * |vs| && ReadsScalars(o, 0, vs) && ScalarsInRange(S, vs)
  {}

  lemma ParsedCount<G1(!new), G2(!new), GT(!new)>(S: Suite<G1, G2, GT>, o: Octets)
    requires |o| % 32 == 0
    ensures ParseScalars(S, o).Some? ==> |o| == 32 * |ParseScalars(S, o).value|
  {
    hide ParseScalars;
  }

  lemma LastRead(o: Octets, n: nat, v: nat)
    requires |o| == n + 32
    ensures Reads(o, n, 32, v) <==> Os2ip(o[n..]) == v
  {
    assert o[n..n + 32] == o[n..];
  }

  /** The last field of a section is parsed last. */
  lemma LastParsed<G1(!new), G2(!new), GT(!new)>(S: Suite<G1, G2, GT>, o: Octets, f: Octets, front: seq<nat>, last: nat)
    requires |o| % 32 == 0 && |f| == 32
    ensures |o + f| % 32 == 0
    ensures ParseScalars(S, o + f) == Some(front + [last]) && ScalarsInRange(S, front) <==>
      ParseScalars(S, o) == Some(front) && Os2ip(f) == last && ScalarsInRange(S, front + [last])
    ensures ParseScalars(S, o + f) == Some(front + [last]) ==> ParseScalars(S, o) == Some(front)
    ensures ScalarsInRange(S, front + [last]) ==> ScalarsInRange(S, front)
  {
    ParseAppend(S, o, f);
    hide ParseScalars, ScalarsInRange, Os2ip;
    RangeAppend(S, front, last);
    if ParseScalars(S, o).Some? {
      SnocEqual(ParseScalars(S, o).value, Os2ip(f), front, last);
    }
  }

  lemma PrefixScalars(o: Octets, n: nat, vs: seq<nat>)
    requires n <= |o| && n == 32 * |vs|
    ensures ReadsScalars(o[..n], 0, vs) <==> ReadsScalars(o, 0, vs)
  {
    forall i | 0 <= i < |vs| ensures Reads(o[..n], 32 * i, 32, vs[i]) <==> Reads(o, 32 * i, 32, vs[i]) {
      assert o[..n][32 * i..32 * i + 32] == o[32 * i..32 * i + 32];
    }
  }

  lemma ShiftScalars(o: Octets, n: nat, vs: seq<nat>)
    requires n <= |o|
    ensures ReadsScalars(o[n..], 0, vs) <==> ReadsScalars(o, n, vs)
  {
    forall i | 0 <= i < |vs| ensures Reads(o[n..], 32 * i, 32, vs[i]) <==> Reads(o, n + 32 * i, 32, vs[i]) {
      if n + 32 * i + 32 <= |o| {
        assert o[n..][32 * i..32 * i + 32] == o[n + 32 * i..n + 32 * i + 32];
      }
    }
  }

  /** The scalars of a proof in their fields: the three responses, those of the hidden messages, the challenge. */
  predicate ReadsResponses<G1(==, !new)>(o: Octets, p: Proof<G1>)
  {
    && |o| == 144 + 32 * (4 + |p.commitments|)
    && Reads(o, 144, 32, p.eHat) && Reads(o, 176, 32, p.r1Hat) && Reads(o, 208, 32, p.r3Hat)
    && ReadsScalars(o, 240, p.commitments) && Reads(o, 240 + 32 * |p.commitments|, 32, p.challenge)
  }

  lemma ScalarsConcat(o: Octets, at: nat, a: seq<nat>, b: seq<nat>)
    ensures ReadsScalars(o, at, a + b) <==> ReadsScalars(o, at, a) && ReadsScalars(o, at + 32 * |a|, b)
  {
    hide Reads;
    if ReadsScalars(o, at, a + b) {
      forall i | 0 <= i < |a| ensures Reads(o, at + 32 * i, 32, a[i]) {
        assert (a + b)[i] == a[i];
      }
      forall i | 0 <= i < |b| ensures Reads(o, at + 32 * |a| + 32 * i, 32, b[i]) {
        assert (a + b)[|a| + i] == b[i] && at + 32 * |a| + 32 * i == at + 32 * (|a| + i);
      }
    }
    if ReadsScalars(o, at, a) && ReadsScalars(o, at + 32 * |a|, b) {
      forall i | 0 <= i < |a + b| ensures Reads(o, at + 32 * i, 32, (a + b)[i]) {
        assert i >= |a| ==> Reads(o, at + 32 * |a| + 32 * (i - |a|), 32, b[i - |a|]);
      }
    }
  }

  lemma OneScalar(o: Octets, at: nat, v: nat)
    ensures ReadsScalars(o, at, [v]) <==> Reads(o, at, 32, v)
  {
    assert at + 32 * 0 == at && [v][0] == v;
    assert ReadsScalars(o, at, [v]) ==> Reads(o, at + 32 * 0, 32, [v][0]);
  }

  lemma ResponsesInOrder<G1(!new)>(o: Octets, p: Proof<G1>)
    requires |o| == 144 + 32 * (4 + |p.commitments|)
    ensures ReadsResponses(o, p) <==> ReadsScalars(o, 144, ProofScalars(p))
  {
    hide Reads, ReadsScalars;
    var head := [p.eHat, p.r1Hat, p.r3Hat];
    ScalarsConcat(o, 144, head + p.commitments, [p.challenge]);
    ScalarsConcat(o, 144, head, p.commitments);
    assert head == [p.eHat] + [p.r1Hat] + [p.r3Hat];
    ScalarsConcat(o, 144, [p.eHat] + [p.r1Hat], [p.r3Hat]);
    ScalarsConcat(o, 144, [p.eHat], [p.r1Hat]);
    OneScalar(o, 144, p.eHat);
    OneScalar(o, 176, p.r1Hat);
    OneScalar(o, 208, p.r3Hat);
    OneScalar(o, 240 + 32 * |p.commitments|, p.challenge);
  }

  /** A proof in octets: three points, then its scalars. */
  lemma ProofOctets<G1(!new), G2(!new), GT(!new)>(S: Suite<G1, G2, GT>, o: Octets, p: Proof<G1>)
    requires S.Valid() && ScalarsBelow(S, ProofScalars(p))
    ensures o == ProofToOctets(S, p) <==>
      && Stands(o, 0, S.encode1(p.abar)) && Stands(o, 48, S.encode1(p.bbar)) && Stands(o, 96, S.encode1(p.d))
      && ReadsResponses(o, p)
  {
    assert S.EncodesPoint(p.abar) && S.EncodesPoint(p.bbar) && S.EncodesPoint(p.d);
    var vs := ProofScalars(p);
    assert ScalarsFit(vs);
    hide Stands, Reads, ReadsScalars, ReadsResponses, Fields, ScalarsBelow, ScalarsFit;
    ScalarsStand(o, 144, vs);
    StandsWhole(o, ProofToOctets(S, p));
    StandsConcat(o, 0, S.encode1(p.abar) + S.encode1(p.bbar) + S.encode1(p.d), Fields(vs));
    StandsConcat(o, 0, S.encode1(p.abar) + S.encode1(p.bbar), S.encode1(p.d));
    StandsConcat(o, 0, S.encode1(p.abar), S.encode1(p.bbar));
    ResponsesLength(o, p);
    if |o| == 144 + 32 * (4 + |p.commitments|) {
      ResponsesInOrder(o, p);
    }
  }

  lemma ResponsesLength<G1(!new)>(o: Octets, p: Proof<G1>)
    ensures ReadsResponses(o, p) ==> |o| == 144 + 32 * (4 + |p.commitments|)
  {}

  lemma FiveParts(s: seq<nat>, x: nat, y: nat, z: nat, c: seq<nat>, w: nat)
    requires |s| >= 4
    ensures s == [x, y, z] + c + [w] <==>
      s[0] == x && s[1] == y && s[2] == z && s[3..|s| - 1] == c && s[|s| - 1] == w
  {
    if s == [x, y, z] + c + [w] {
      assert s[3..|s| - 1] == c;
    }
  }

  /** What the parser reads: three points and one section of scalars. */
  lemma ParsedParts<G1(!new), G2(!new), GT(!new)>(S: Suite<G1, G2, GT>, o: Octets, p: Proof<G1>)
    requires |o| >= 272 && (|o| - 144) % 32 == 0
    ensures OctetsToProof(S, o) == Some(p) <==>
      && ParsePoint(S, o[..48]) == Some(p.abar) && ParsePoint(S, o[48..96]) == Some(p.bbar)
      && ParsePoint(S, o[96..144]) == Some(p.d) && ParseScalars(S, o[144..]) == Some(ProofScalars(p))
  {
    hide ParsePoint, ParseScalars;
    var scalars := ParseScalars(S, o[144..]);
    if scalars.Some? {
      FiveParts(scalars.value, p.eHat, p.r1Hat, p.r3Hat, p.commitments, p.challenge);
    }
  }

  lemma PointParses<G1(!new), G2(!new), GT(!new)>(S: Suite<G1, G2, GT>, o: Octets, x: G1)
    requires |o| == 48
    ensures ParsePoint(S, o) == Some(x) <==> S.decode1(o) == Some(x) && x != S.Zero()
  {}

  /** Octets parse to a proof exactly when they read as its points and scalars and those are well formed. */
  lemma ProofParses<G1(!new), G2(!new), GT(!new)>(S: Suite<G1, G2, GT>, o: Octets, p: Proof<G1>)
    ensures OctetsToProof(S, o) == Some(p) <==>
      && |o| == 144 + 32 * (4 + |p.commitments|) && ReadsResponses(o, p) && WellFormed(S, p)
      && S.decode1(o[..48]) == Some(p.abar) && S.decode1(o[48..96]) == Some(p.bbar)
      && S.decode1(o[96..144]) == Some(p.d)
  {
    hide ParseScalars, ParsePoint, ScalarsInRange, ReadsScalars, ReadsResponses, Reads, WellFormed;
    var vs := ProofScalars(p);
    if OctetsToProof(S, o) == Some(p) {
      hide ProofScalars;
      ParsedParts(S, o, p);
      ScalarsParse(S, o[144..], vs);
      ScalarsCount(p);
    }
    if |o| == 144 + 32 * (4 + |p.commitments|) {
      ParsedParts(S, o, p);
      PointParses(S, o[..48], p.abar);
      PointParses(S, o[48..96], p.bbar);
      PointParses(S, o[96..144], p.d);
      ScalarsParse(S, o[144..], vs);
      ShiftScalars(o, 144, vs);
      ResponsesInOrder(o, p);
      WellFormedExact(S, p);
    }
  }

  lemma ScalarsCount<G1(!new)>(p: Proof<G1>)
    ensures |ProofScalars(p)| == 4 + |p.commitments|
  {}

  lemma WellFormedExact<G1(!new), G2(!new), GT(!new)>(S: Suite<G1, G2, GT>, p: Proof<G1>)
    ensures WellFormed(S, p) <==>
      p.abar != S.Zero() && p.bbar != S.Zero() && p.d != S.Zero() && ScalarsInRange(S, ProofScalars(p))
  {
    if p.abar != S.Zero() && p.bbar != S.Zero() && p.d != S.Zero() {
      WellFormedScalars(S, p);
    }
  }

  // ---- Proof generation and verification over the challenge input ----

  /**
   * bbs_proof_gen: it refuses a malformed key, a malformed signature and an index
   * list that is too long, out of range or not ascending, and nothing else; its
   * octets hold the three points that the challenge input holds, and the scalar
   * of that input.
   */
  lemma ProofGenOctets<G1(!new), G2(!new), GT(!new)>(
      S: Suite<G1, G2, GT>, pk: Octets, signature: Octets, header: Octets, ph: Octets, messages: seq<Octets>,
      idx: seq<nat>, rnd: Randoms, ci: Octets)
    requires S.Valid() && IsDrawn(S, rnd, idx, |messages|)
    ensures var r := ProofGen(S, pk, signature, header, ph, messages, idx, rnd);
      && (r.Err? <==>
            || |pk| != 96 || S.decode2(pk).None? || S.decode2(pk).value == S.pairing.g2.zero
            || OctetsToSignature(S, signature).None?
            || |idx| > |messages| || (exists i :: 0 <= i < |idx| && idx[i] >= |messages|)
            || (exists i, j :: 0 <= i < j < |idx| && idx[i] >= idx[j]))
      && (r.Err? ==> r.error.BbsError?)
      && (r.Ok? ==>
            var ms := MessageScalars(S, messages);
            var t := Commit(S, pk, OctetsToSignature(S, signature).value, header, ms, idx, rnd);
            Fits(S, t, Gather<nat>(ms, idx), idx, ph) && ChallengeInput(S, ci, t, Gather<nat>(ms, idx), idx, ph) ==>
            && |r.value| == 144 + 32 * (4 + |messages| - |idx|)
            && Stands(r.value, 0, S.encode1(t.abar)) && Stands(r.value, 48, S.encode1(t.bbar))
            && Stands(r.value, 96, S.encode1(t.d)) && Reads(r.value, |r.value| - 32, 32, Hashed(S, ci)))
  {
    hide OctetsToSignature, Commit, MessageScalars, Prove, ProofToOctets, Stands, Reads, Hashed, ChallengeInput, Fits;
    var ms := MessageScalars(S, messages);
    if ProofGen(S, pk, signature, header, ph, messages, idx, rnd).Ok? {
      assert IndexesOk(idx, |messages|);
      var sig := OctetsToSignature(S, signature).value;
      var t := Commit(S, pk, sig, header, ms, idx, rnd);
      var ds := Gather<nat>(ms, idx);
      if Fits(S, t, ds, idx, ph) && ChallengeInput(S, ci, t, ds, idx, ph) {
        ChallengeHashed(S, ci, t, ds, idx, ph);
        ProofFields(S, pk, sig, header, ph, ms, idx, rnd);
      }
    }
  }

  /** The octets of an honest proof. */
  lemma ProofFields<G1(!new), G2(!new), GT(!new)>(
      S: Suite<G1, G2, GT>, pk: Octets, sig: Signature<G1>, header: Octets, ph: Octets, ms: seq<nat>, idx: seq<nat>,
      rnd: Randoms)
    requires S.Valid() && InRange(idx, |ms|) && StrictlyIncreasing(idx)
    requires |rnd.mTildes| == |Complement(idx, |ms|)|
    ensures var o := ProofToOctets(S, Prove(S, pk, sig, header, ph, ms, idx, rnd));
      var t := Commit(S, pk, sig, header, ms, idx, rnd);
      && |o| == 144 + 32 * (4 + |ms| - |idx|)
      && Stands(o, 0, S.encode1(t.abar)) && Stands(o, 48, S.encode1(t.bbar)) && Stands(o, 96, S.encode1(t.d))
      && Reads(o, |o| - 32, 32, ChallengeFor(S, t, Gather<nat>(ms, idx), idx, ph))
  {
    hide Commit, ChallengeFor, ProofToOctets, Stands, Reads, Complement, ReadsScalars, ScalarsBelow;
    var p := Prove(S, pk, sig, header, ph, ms, idx, rnd);
    var t := Commit(S, pk, sig, header, ms, idx, rnd);
    RespondScalarsBelow(S, t, sig.e, rnd, Gather<nat>(ms, Complement(idx, |ms|)),
                        ChallengeFor(S, t, Gather<nat>(ms, idx), idx, ph));
    ProofOctets(S, ProofToOctets(S, p), p);
    IncreasingDistinct(idx);
    ComplementSize(idx, |ms|);
  }

  /**
   * bbs_proof_verify: the accepted octets are the proofs whose indexes are in
   * range, whose challenge is the scalar of the challenge input over the points
   * shown, T1 and T2 recomputed and the disclosed messages, and whose points pair.
   */
  lemma ProofVerifyHashes<G1(!new), G2(!new), GT(!new)>(
      S: Suite<G1, G2, GT>, pk: Octets, proof: Octets, header: Octets, ph: Octets, disclosed: seq<Octets>,
      idx: seq<nat>, p: Proof<G1>, ci: Octets)
    requires S.Valid() && OctetsToProof(S, proof) == Some(p)
    requires var n := |idx| + |p.commitments|;
      InRange(idx, n) && |disclosed| == |idx| &&
      var ms, domain := MessageScalars(S, disclosed), Domain(S, pk, n, header);
      var t1 := S.Add(S.Add(S.Mul(p.challenge, p.bbar), S.Mul(p.eHat, p.abar)), S.Mul(p.r1Hat, p.d));
      var t2 := RecomputeT2(S, p, DisclosedB(S, domain, n, idx, ms), HiddenPoints(S, n, idx));
      var t := Transcript(p.abar, p.bbar, p.d, t1, t2, domain);
      Fits(S, t, ms, idx, ph) && ChallengeInput(S, ci, t, ms, idx, ph)
    ensures ProofVerify(S, pk, proof, header, ph, disclosed, idx) == Ok(true) <==>
      && |pk| == 96 && S.decode2(pk).Some? && S.decode2(pk).value != S.pairing.g2.zero
      && p.challenge == Hashed(S, ci) && ProofPairing(S, S.decode2(pk).value, p)
  {
    hide OctetsToProof, MessageScalars, Hashed, ChallengeInput, Fits, RecomputeT2, ChallengeFor, ProofPairing, Domain,
        HiddenPoints, DisclosedB;
    var n := |idx| + |p.commitments|;
    var ms, domain := MessageScalars(S, disclosed), Domain(S, pk, n, header);
    var t := Recompute(S, pk, p, header, n, ms, idx);
    ChallengeHashed(S, ci, t, ms, idx, ph);
  }
}
