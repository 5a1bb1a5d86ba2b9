/**
 `SignatureSetToValidIdentities` of `common/policies/policy.go`, and the evaluation of a signature
 policy on signed data.
 */
module SignatureSet {
  import opened Wrappers
  import opened SignaturePolicy

  /** How serialized identities are read and signatures are checked. */
  datatype Deserializer = Deserializer(deserialize: Bytes -> Option<Identity>, verify: (Identity, Bytes, Bytes) -> bool)

  /** The key under which identities are deduplicated. */
  function IdentityKey(id: Identity): string {
    id.mspid + id.id
  }

  /** The signed data names the identity, and its signature is valid. */
  predicate SignedByIdentity(sd: SignedData, d: Deserializer, id: Identity) {
    d.deserialize(sd.identity) == Some(id) && d.verify(id, sd.data, sd.signature)
  }

  predicate HasKey(ids: seq<Identity>, key: string) {
    exists i | 0 <= i < |ids| :: IdentityKey(ids[i]) == key
  }

  /** What the loop of `SignatureSetToValidIdentities` does with one more piece of signed data. */
  function Admit(ids: seq<Identity>, sd: SignedData, d: Deserializer): seq<Identity> {
    match d.deserialize(sd.identity)
    case None => ids
    case Some(id) => if HasKey(ids, IdentityKey(id)) || !d.verify(id, sd.data, sd.signature) then ids else ids + [id]
  }

  function ValidIdentities(signedData: seq<SignedData>, d: Deserializer): seq<Identity> {
    if signedData == [] then []
    else Admit(ValidIdentities(signedData[..|signedData| - 1], d), signedData[|signedData| - 1], d)
  }

  /** `SignatureSetToValidIdentities` */
  method SignatureSetToValidIdentities(signedData: seq<SignedData>, d: Deserializer) returns (identities: seq<Identity>)
    ensures identities == ValidIdentities(signedData, d)
  {
    var seen: set<string> := {};
    identities := [];
    for i := 0 to |signedData|
      invariant identities == ValidIdentities(signedData[..i], d)
      invariant forall key :: key in seen <==> HasKey(identities, key)
    {
      assert signedData[..i + 1][..i] == signedData[..i];
      var sd := signedData[i];
      var identity := d.deserialize(sd.identity);
      if identity.None? {
        continue;
      }
      var key := IdentityKey(identity.value);
      if key in seen {
        continue;
      }
      if !d.verify(identity.value, sd.data, sd.signature) {
        continue;
      }
      seen := seen + {key};
      HasKeySnoc(identities, identity.value);
      identities := identities + [identity.value];
    }
    assert signedData[..|signedData|] == signedData;
  }

  lemma HasKeySnoc(ids: seq<Identity>, id: Identity)
    ensures forall key :: HasKey(ids + [id], key) <==> HasKey(ids, key) || key == IdentityKey(id)
  {
    forall key ensures HasKey(ids + [id], key) <==> HasKey(ids, key) || key == IdentityKey(id) {
      var more := ids + [id];
      assert more[|ids|] == id && forall i | 0 <= i < |ids| :: more[i] == ids[i];
    }
  }

  /** The identifiers of provider and identity, run together, differ. */
  predicate KeysDiffer(a: Identity, b: Identity) {
    a.mspid + a.id != b.mspid + b.id
  }

  predicate DistinctIdentityKeys(ids: seq<Identity>) {
    forall i, j | 0 <= i < j < |ids| :: KeysDiffer(ids[i], ids[j])
  }

  /** Some piece of the signed data carries a valid signature of the identity. */
  predicate Verified(signedData: seq<SignedData>, d: Deserializer, id: Identity) {
    exists j | 0 <= j < |signedData| :: SignedByIdentity(signedData[j], d, id)
  }

  /** The identities returned have pairwise different keys and valid signatures, and every valid signer's key is there. */
  lemma {:induction false} ValidIdentitiesExact(signedData: seq<SignedData>, d: Deserializer)
    ensures DistinctIdentityKeys(ValidIdentities(signedData, d))
    ensures forall i | 0 <= i < |ValidIdentities(signedData, d)| :: Verified(signedData, d, ValidIdentities(signedData, d)[i])
    ensures forall id :: Verified(signedData, d, id) ==> HasKey(ValidIdentities(signedData, d), IdentityKey(id))
    decreases |signedData|
  {
    if signedData != [] {
      var front, last := signedData[..|signedData| - 1], signedData[|signedData| - 1];
      var ids, more := ValidIdentities(front, d), ValidIdentities(signedData, d);
      ValidIdentitiesExact(front, d);
      forall id ensures Verified(signedData, d, id) <==> Verified(front, d, id) || SignedByIdentity(last, d, id) {
        VerifiedSnoc(front, last, d, id);
        assert signedData == front + [last];
      }
      if more != ids {
        var id := d.deserialize(last.identity).value;
        HasKeySnoc(ids, id);
      }
    }
  }

  lemma VerifiedSnoc(front: seq<SignedData>, last: SignedData, d: Deserializer, id: Identity)
    ensures Verified(front + [last], d, id) <==> Verified(front, d, id) || SignedByIdentity(last, d, id)
  {
    var all := front + [last];
    assert all[|front|] == last && forall j | 0 <= j < |front| :: all[j] == front[j];
  }

  /** Every valid signer is among the identities, up to the identifiers of provider and identity run together. */
  lemma EveryValidSigner(signedData: seq<SignedData>, d: Deserializer, id: Identity)
    requires Verified(signedData, d, id)
    ensures exists i | 0 <= i < |ValidIdentities(signedData, d)| ::
              ValidIdentities(signedData, d)[i].mspid + ValidIdentities(signedData, d)[i].id == id.mspid + id.id
  {
    hide ValidIdentities; hide Verified;
    ValidIdentitiesExact(signedData, d);
    var ids := ValidIdentities(signedData, d);
    var i :| 0 <= i < |ids| && IdentityKey(ids[i]) == IdentityKey(id);
  }

  /** With the same provider, the same key means the same identity. */
  lemma KeyCollision(a: Identity, b: Identity)
    requires a.mspid == b.mspid
    ensures IdentityKey(a) == IdentityKey(b) <==> a == b
  {
    if IdentityKey(a) == IdentityKey(b) {
      assert a.id == IdentityKey(a)[|a.mspid|..] && b.id == IdentityKey(b)[|b.mspid|..];
    }
  }

  /** Two valid signers are taken for one exactly when their keys are equal. */
  lemma TwoSigners(x: SignedData, y: SignedData, d: Deserializer, a: Identity, b: Identity)
    requires SignedByIdentity(x, d, a) && SignedByIdentity(y, d, b)
    ensures ValidIdentities([x, y], d) == if a.mspid + a.id == b.mspid + b.id then [a] else [a, b]
  {
    assert [x, y][..1] == [x] && [x][..0] == [];
    assert ValidIdentities([x], d) == [a];
    assert [a][0] == a;
  }

  /** With different providers, different identities can have the same key, and only the first of them counts. */
  lemma KeysCollideAcrossProviders(x: SignedData, y: SignedData, d: Deserializer)
    requires SignedByIdentity(x, d, Identity("Org1", "2a")) && SignedByIdentity(y, d, Identity("Org12", "a"))
    ensures ValidIdentities([x, y], d) == [Identity("Org1", "2a")]
  {
    hide ValidIdentities;
    assert "Org1" + "2a" == "Org12" + "a";
    TwoSigners(x, y, d, Identity("Org1", "2a"), Identity("Org12", "a"));
  }

  /** Piece `j` of the signed data is the first with a valid signature under its key, the identifiers of provider and identity run together. */
  ghost predicate FirstOfItsKey(signedData: seq<SignedData>, d: Deserializer, j: nat, id: Identity) {
    && j < |signedData| && SignedByIdentity(signedData[j], d, id)
    && forall i, other | 0 <= i < j && SignedByIdentity(signedData[i], d, other) :: other.mspid + other.id != id.mspid + id.id
  }

  /** The positions increase, and each identity is the first of its key at its position. */
  ghost predicate Firsts(signedData: seq<SignedData>, d: Deserializer, at: seq<nat>, ids: seq<Identity>) {
    && |at| == |ids| && (forall i, j | 0 <= i < j < |at| :: at[i] < at[j])
    && forall i | 0 <= i < |at| :: FirstOfItsKey(signedData, d, at[i], ids[i])
  }

  lemma FirstStays(front: seq<SignedData>, last: SignedData, d: Deserializer, j: nat, id: Identity)
    requires FirstOfItsKey(front, d, j, id)
    ensures FirstOfItsKey(front + [last], d, j, id) && j < |front|
  {
    var all := front + [last];
    assert forall i | 0 <= i <= j :: all[i] == front[i];
  }

  /** The identities are exactly the first valid signers of each key, in the order in which they signed. */
  lemma {:induction false} ValidIdentitiesInOrder(signedData: seq<SignedData>, d: Deserializer) returns (at: seq<nat>)
    ensures Firsts(signedData, d, at, ValidIdentities(signedData, d))
    ensures forall j: nat, id | FirstOfItsKey(signedData, d, j, id) :: j in at
    decreases |signedData|
  {
    if signedData == [] {
      at := [];
    } else {
      hide FirstOfItsKey; hide ValidIdentities;
      var n := |signedData| - 1;
      var front, last := signedData[..n], signedData[n];
      assert signedData == front + [last];
      var ids := ValidIdentities(front, d);
      at := ValidIdentitiesInOrder(front, d);
      forall i | 0 <= i < |at| ensures FirstOfItsKey(signedData, d, at[i], ids[i]) && at[i] < n {
        FirstStays(front, last, d, at[i], ids[i]);
      }
      var early := at;
      AdmitExactly(front, last, d);
      if ValidIdentities(signedData, d) != ids {
        at := at + [n];
      }
      forall j: nat, id | FirstOfItsKey(signedData, d, j, id) ensures j in at {
        FirstSplit(front, last, d, j, id);
        assert j < n ==> j in early;
      }
    }
  }

  lemma FirstSplit(front: seq<SignedData>, last: SignedData, d: Deserializer, j: nat, id: Identity)
    requires FirstOfItsKey(front + [last], d, j, id)
    ensures if j < |front| then FirstOfItsKey(front, d, j, id) else j == |front|
  {
    var all := front + [last];
    assert forall i | 0 <= i < |front| :: all[i] == front[i];
  }

  /** One more piece of signed data adds its identity exactly if it is the first of its key. */
  lemma AdmitExactly(front: seq<SignedData>, last: SignedData, d: Deserializer)
    ensures var ids, more, n := ValidIdentities(front, d), ValidIdentities(front + [last], d), |front|;
            && (more != ids ==> d.deserialize(last.identity).Some? && more == ids + [d.deserialize(last.identity).value]
                                && FirstOfItsKey(front + [last], d, n, d.deserialize(last.identity).value))
            && (more == ids ==> forall id :: !FirstOfItsKey(front + [last], d, n, id))
  {
    var all, ids := front + [last], ValidIdentities(front, d);
    assert all[..|all| - 1] == front && all[|front|] == last;
    assert forall i | 0 <= i < |front| :: all[i] == front[i];
    hide ValidIdentities;
    ValidIdentitiesExact(front, d);
    var who := d.deserialize(last.identity);
    if who.Some? {
      var id := who.value;
      if HasKey(ids, IdentityKey(id)) {
        var m :| 0 <= m < |ids| && IdentityKey(ids[m]) == IdentityKey(id);
        assert Verified(front, d, ids[m]);
        var i :| 0 <= i < |front| && SignedByIdentity(front[i], d, ids[m]);
        assert SignedByIdentity(all[i], d, ids[m]);
      } else if SignedByIdentity(last, d, id) {
        forall i, other | 0 <= i < |front| && SignedByIdentity(all[i], d, other) ensures other.mspid + other.id != id.mspid + id.id {
          assert SignedByIdentity(front[i], d, other);
          assert Verified(front, d, other);
        }
      }
    }
  }

  /** `EvaluateSignedData` of a compiled signature policy. */
  predicate AcceptsSignedData(rule: Rule, principals: seq<Principal>, sat: (Identity, Principal) -> bool,
                              d: Deserializer, signedData: seq<SignedData>)
    requires Compiles(rule, principals)
  {
    Accepts(rule, principals, Signers(ValidIdentities(signedData, d), sat))
  }

  /** Signed data is accepted only if distinct signers, with distinct keys and valid signatures, meet the policy. */
  lemma SignedDataSound(rule: Rule, principals: seq<Principal>, sat: (Identity, Principal) -> bool,
                        d: Deserializer, signedData: seq<SignedData>) returns (w: Witness)
    requires Compiles(rule, principals) && AcceptsSignedData(rule, principals, sat, d, signedData)
    ensures var ids := ValidIdentities(signedData, d);
            && MetByDistinct(w, rule, principals, Signers(ids, sat))
            && (forall l | 0 <= l < |Leaves(w)| :: Leaves(w)[l] < |ids| && Verified(signedData, d, ids[Leaves(w)[l]]))
            && (forall l, m | 0 <= l < m < |Leaves(w)| :: KeysDiffer(ids[Leaves(w)[l]], ids[Leaves(w)[m]]))
  {
    hide Eval; hide Meets; hide Leaves; hide ValidIdentities; hide IdentityKey; hide Verified;
    var ids := ValidIdentities(signedData, d);
    w := EvalSound(rule, principals, Signers(ids, sat), Fresh(|ids|));
    ValidIdentitiesExact(signedData, d);
    forall l | 0 <= l < |Leaves(w)| ensures Leaves(w)[l] < |ids| && Verified(signedData, d, ids[Leaves(w)[l]]) {
      assert Leaves(w)[l] in Leaves(w);
    }
    forall l, m | 0 <= l < m < |Leaves(w)| ensures KeysDiffer(ids[Leaves(w)[l]], ids[Leaves(w)[m]]) {
      var a, b := Leaves(w)[l], Leaves(w)[m];
      assert a in Leaves(w) && b in Leaves(w) && a != b;
    }
  }
}
