/** Tamper evidence as a reduction: two accepted histories with the same head are the same history,
    or a sha256 collision can be read off them. */
module TamperEvidence {
  import opened Wrappers
  import opened ChainHash
  import opened ChainSpec
  import opened VerifierAgreement

  /** The bytes that row i's hash covers. */
  function Hashed(env: Env, t: seq<Row>, i: nat): Bytes
    requires i < |t|
  {
    RowMaterial(env, PrevOf(None, t, i), t[i])
  }

  ghost predicate SameHead(t: seq<Row>, u: seq<Row>) {
    |t| == |u| && (t != [] ==> t[|t| - 1].chainHash == u[|u| - 1].chainHash)
  }

  /** Walks back from the head to the last pair of rows that hash different bytes. */
  function LastDifference(env: Env, t: seq<Row>, u: seq<Row>): Option<(Bytes, Bytes)>
    requires |t| == |u|
  {
    if t == [] then None
    else
      var n := |t| - 1;
      if Hashed(env, t, n) != Hashed(env, u, n) then Some((Hashed(env, t, n), Hashed(env, u, n)))
      else LastDifference(env, t[..n], u[..n])
  }

  /** Equal bytes with equally long predecessors have equal predecessors. */
  lemma SamePredecessor(env: Env, p: Option<Bytes>, r: Row, q: Option<Bytes>, s: Row)
    requires |DerefStr(p)| == |DerefStr(q)| && RowMaterial(env, p, r) == RowMaterial(env, q, s)
    ensures DerefStr(p) == DerefStr(q)
  {
    assert RowMaterial(env, p, r)[..|DerefStr(p)|] == DerefStr(p);
    assert RowMaterial(env, q, s)[..|DerefStr(q)|] == DerefStr(q);
  }

  /** Dropping the last row of an intact history leaves an intact history. */
  lemma IntactPrefix(h: RowHash, t: seq<Row>, n: nat)
    requires n <= |t| && Intact(h, None, t)
    ensures Intact(h, None, t[..n])
  {
    forall i | 0 <= i < n
      ensures Good(h, None, t[..n], i)
    {
      assert Good(h, None, t, i);
    }
  }

  lemma HeadsStayEqual(env: Env, t: seq<Row>, u: seq<Row>, n: nat)
    requires |t| == |u| == n + 1 && Intact(RowHashOf(env), None, t) && Intact(RowHashOf(env), None, u)
    requires Hashed(env, t, n) == Hashed(env, u, n)
    ensures SameHead(t[..n], u[..n])
  {
    if n > 0 {
      assert Good(RowHashOf(env), None, t, n - 1) && Good(RowHashOf(env), None, u, n - 1);
      assert |t[n - 1].chainHash| == 32 == |u[n - 1].chainHash|;
      SamePredecessor(env, PrevOf(None, t, n), t[n], PrevOf(None, u, n), u[n]);
    }
  }

  lemma HashedOfPrefix(env: Env, t: seq<Row>, n: nat, i: nat)
    requires i < n <= |t|
    ensures Hashed(env, t[..n], i) == Hashed(env, t, i)
  {
  }

  lemma AllHashedEqual(env: Env, t: seq<Row>, u: seq<Row>, n: nat)
    requires |t| == |u| == n + 1 && Hashed(env, t, n) == Hashed(env, u, n)
    requires forall i | 0 <= i < n :: Hashed(env, t[..n], i) == Hashed(env, u[..n], i)
    ensures forall i | 0 <= i < |t| :: Hashed(env, t, i) == Hashed(env, u, i)
  {
    forall i | 0 <= i < |t|
      ensures Hashed(env, t, i) == Hashed(env, u, i)
    {
      if i < n {
        HashedOfPrefix(env, t, n, i);
        HashedOfPrefix(env, u, n, i);
      }
    }
  }

  /** If two equally long histories are both accepted by VerifyDeep and end in the same head hash, then either
      every row hashes the same bytes, or LastDifference returns a collision. */
  lemma {:induction false} EqualOrCollision(env: Env, t: seq<Row>, u: seq<Row>)
    requires SameHead(t, u) && Intact(RowHashOf(env), None, t) && Intact(RowHashOf(env), None, u)
    ensures match LastDifference(env, t, u)
            case Some(pair) => Collision(env, pair.0, pair.1)
            case None => forall i | 0 <= i < |t| :: Hashed(env, t, i) == Hashed(env, u, i)
  {
    if t != [] {
      var n := |t| - 1;
      assert Good(RowHashOf(env), None, t, n) && Good(RowHashOf(env), None, u, n);
      assert env.sum(Hashed(env, t, n)) == t[n].chainHash == u[n].chainHash == env.sum(Hashed(env, u, n));
      if Hashed(env, t, n) == Hashed(env, u, n) {
        HeadsStayEqual(env, t, u, n);
        IntactPrefix(RowHashOf(env), t, n);
        IntactPrefix(RowHashOf(env), u, n);
        EqualOrCollision(env, t[..n], u[..n]);
        if LastDifference(env, t, u).None? {
          AllHashedEqual(env, t, u, n);
        }
      }
    }
  }

  ghost predicate SameHistory(t: seq<Row>, u: seq<Row>) {
    |t| == |u| && forall i | 0 <= i < |t| :: SameContent(t[i], u[i]) && t[i].chainHash == u[i].chainHash
  }

  ghost predicate AllDelimited(t: seq<Row>) {
    forall i | 0 <= i < |t| :: Delimited(t[i])
  }

  /** The head hash of an accepted history commits to the content and the stored hash of every row in it. */
  lemma HeadCommitsToHistory(env: Env, t: seq<Row>, u: seq<Row>)
    requires SameHead(t, u) && Intact(RowHashOf(env), None, t) && Intact(RowHashOf(env), None, u)
    requires TimeFormatInjective(env) && AllDelimited(t) && AllDelimited(u)
    ensures LastDifference(env, t, u).None? ==> SameHistory(t, u)
    ensures LastDifference(env, t, u).Some? ==>
      var (a, b) := LastDifference(env, t, u).value; Collision(env, a, b)
  {
    EqualOrCollision(env, t, u);
    if LastDifference(env, t, u).None? {
      SameBytesSameHistory(env, t, u);
    }
  }

  lemma SameBytesSameHistory(env: Env, t: seq<Row>, u: seq<Row>)
    requires |t| == |u| && Intact(RowHashOf(env), None, t) && Intact(RowHashOf(env), None, u)
    requires TimeFormatInjective(env) && AllDelimited(t) && AllDelimited(u)
    requires forall i | 0 <= i < |t| :: Hashed(env, t, i) == Hashed(env, u, i)
    ensures SameHistory(t, u)
  {
    forall i | 0 <= i < |t|
      ensures SameContent(t[i], u[i]) && t[i].chainHash == u[i].chainHash
    {
      RowsAgree(env, t, u, i);
    }
  }

  lemma RowsAgree(env: Env, t: seq<Row>, u: seq<Row>, i: nat)
    requires |t| == |u| && i < |t| && Hashed(env, t, i) == Hashed(env, u, i)
    requires Intact(RowHashOf(env), None, t) && Intact(RowHashOf(env), None, u)
    requires TimeFormatInjective(env) && Delimited(t[i]) && Delimited(u[i])
    ensures SameContent(t[i], u[i]) && t[i].chainHash == u[i].chainHash
  {
    var h := RowHashOf(env);
    assert Good(h, None, t, i) && Good(h, None, u, i);
    assert env.sum(Hashed(env, t, i)) == t[i].chainHash && env.sum(Hashed(env, u, i)) == u[i].chainHash;
    if i > 0 {
      assert Good(h, None, t, i - 1) && Good(h, None, u, i - 1);
      assert |t[i - 1].chainHash| == 32 == |u[i - 1].chainHash|;
    }
    SamePredecessor(env, PrevOf(None, t, i), t[i], PrevOf(None, u, i), u[i]);
    MaterialInjective(env, PrevOf(None, t, i), t[i], u[i]);
  }
}
