/** Lists of resident credentials and the insertion-ordered map they stand for. */
module Credentials {
  import opened Bytes

  type Blob = seq<byte>

  datatype Credential = Credential(
    rpId: string,
    rpName: string,
    userId: Blob,
    userName: string,
    userDisplayName: string,
    credentialId: Blob,
    publicKeyX: Blob,
    publicKeyY: Blob,
    createdAt: int)
  {
    function Key(): (string, Blob) {
      (rpId, userId)
    }
  }

  // ---------------------------------------------------------------- operations on the list

  /** The first position with the given key, or the length of the list. */
  function FirstWithKey(cs: seq<Credential>, key: (string, Blob)): (i: nat)
    ensures i <= |cs|
    ensures forall j :: 0 <= j < i ==> cs[j].Key() != key
    ensures i < |cs| ==> cs[i].Key() == key
  {
    if cs == [] then 0
    else if cs[0].Key() == key then 0
    else
      var i := FirstWithKey(cs[1..], key);
      assert forall j :: 1 <= j < i + 1 ==> cs[j] == cs[1..][j - 1];
      i + 1
  }

  /** Replaces in place, or appends. */
  function Put(cs: seq<Credential>, c: Credential): seq<Credential> {
    var i := FirstWithKey(cs, c.Key());
    if i < |cs| then cs[i := c] else cs + [c]
  }

  function Without(cs: seq<Credential>, id: Blob): seq<Credential> {
    if cs == [] then []
    else Without(cs[..|cs| - 1], id) + if cs[|cs| - 1].credentialId != id then [cs[|cs| - 1]] else []
  }

  function OfRp(cs: seq<Credential>, rpId: string): seq<Credential> {
    if cs == [] then []
    else OfRp(cs[..|cs| - 1], rpId) + if cs[|cs| - 1].rpId == rpId then [cs[|cs| - 1]] else []
  }

  function LastWithId(cs: seq<Credential>, id: Blob): (c: Option<Credential>)
    ensures c.Some? ==> exists i :: 0 <= i < |cs| && cs[i] == c.value && cs[i].credentialId == id
                                    && forall j :: i < j < |cs| ==> cs[j].credentialId != id
    ensures c.None? ==> forall d <- cs :: d.credentialId != id
  {
    if cs == [] then None
    else if cs[|cs| - 1].credentialId == id then Some(cs[|cs| - 1])
    else LastWithId(cs[..|cs| - 1], id)
  }

  lemma {:induction false} WithoutAbsent(cs: seq<Credential>, id: Blob)
    requires LastWithId(cs, id).None?
    ensures Without(cs, id) == cs
  {
    if cs != [] {
      WithoutAbsent(cs[..|cs| - 1], id);
    }
  }

  lemma {:induction false} WithoutIsClean(cs: seq<Credential>, id: Blob)
    ensures forall c :: c in Without(cs, id) <==> c in cs && c.credentialId != id
  {
    if cs != [] {
      WithoutIsClean(cs[..|cs| - 1], id);
    }
  }

  // ---------------------------------------------------------------- the map behind the list

  /** An insertion-ordered map from (relying party, user) to a credential. */
  datatype OrderedMap = OrderedMap(order: seq<(string, Blob)>, at: map<(string, Blob), Credential>)

  const EMPTY := OrderedMap([], map[])

  function MapPut(m: OrderedMap, c: Credential): OrderedMap {
    OrderedMap(if c.Key() in m.at then m.order else m.order + [c.Key()], m.at[c.Key() := c])
  }

  /** Removes every entry whose credential has the given identifier; the others keep their order. */
  function MapRemove(m: OrderedMap, id: Blob): OrderedMap {
    OrderedMap(KeysWithout(m, m.order, id), map k | k in m.at && m.at[k].credentialId != id :: m.at[k])
  }

  function KeysWithout(m: OrderedMap, keys: seq<(string, Blob)>, id: Blob): seq<(string, Blob)> {
    if keys == [] then []
    else
      var last := keys[|keys| - 1];
      KeysWithout(m, keys[..|keys| - 1], id) + if last in m.at && m.at[last].credentialId != id then [last] else []
  }

  ghost predicate NoRepeats<T>(s: seq<T>) {
    forall i, j :: 0 <= i < j < |s| ==> s[i] != s[j]
  }

  function Keys(cs: seq<Credential>): (ks: seq<(string, Blob)>)
    ensures |ks| == |cs|
  {
    seq(|cs|, i requires 0 <= i < |cs| => cs[i].Key())
  }

  /** The list enumerates the map in its order: each key once, with the credential stored for it. */
  ghost predicate Represents(cs: seq<Credential>, m: OrderedMap) {
    && m.order == Keys(cs) && NoRepeats(m.order)
    && (forall k <- m.at :: k in m.order)
    && (forall c <- cs :: c.Key() in m.at && m.at[c.Key()] == c)
  }

  lemma RepresentsAt(cs: seq<Credential>, m: OrderedMap, i: nat)
    requires m.order == Keys(cs) && i < |cs|
    ensures m.order[i] == cs[i].Key() && m.order[i] in m.order
  {
  }

  lemma AbsentKey(cs: seq<Credential>, key: (string, Blob))
    requires FirstWithKey(cs, key) == |cs|
    ensures key !in Keys(cs)
  {
  }

  lemma ReplaceRefines(cs: seq<Credential>, m: OrderedMap, i: nat, c: Credential)
    requires Represents(cs, m) && i < |cs| && cs[i].Key() == c.Key()
    ensures Represents(cs[i := c], MapPut(m, c))
  {
    var cs', m' := cs[i := c], MapPut(m, c);
    RepresentsAt(cs, m, i);
    assert cs[i] in cs;
    assert m'.order == m.order == Keys(cs');
    forall d | d in cs'
      ensures d.Key() in m'.at && m'.at[d.Key()] == d
    {
      var j :| 0 <= j < |cs'| && cs'[j] == d;
      RepresentsAt(cs, m, j);
      assert j != i ==> m.order[j] != m.order[i] && cs[j] in cs;
    }
  }

  lemma PutRefines(cs: seq<Credential>, m: OrderedMap, c: Credential)
    requires Represents(cs, m)
    ensures Represents(Put(cs, c), MapPut(m, c))
  {
    var i := FirstWithKey(cs, c.Key());
    var cs', m' := Put(cs, c), MapPut(m, c);
    if i < |cs| {
      ReplaceRefines(cs, m, i, c);
    } else {
      AbsentKey(cs, c.Key());
      KeysAppend(cs, c);
    }
  }

  lemma {:induction false} WithoutKeepsDistinct(cs: seq<Credential>, id: Blob)
    requires NoRepeats(Keys(cs))
    ensures NoRepeats(Keys(Without(cs, id)))
    ensures forall k <- Keys(Without(cs, id)) :: k in Keys(cs)
  {
    if cs != [] {
      var n := |cs| - 1;
      var front := cs[..n];
      assert Keys(front) == Keys(cs)[..n];
      assert Keys(cs)[n] !in Keys(front) && Keys(cs)[n] in Keys(cs);
      WithoutKeepsDistinct(front, id);
      var kept := Without(front, id);
      assert Keys(kept + [cs[n]]) == Keys(kept) + [Keys(cs)[n]];
      assert Keys(kept + []) == Keys(kept);
    }
  }

  lemma UnfoldLast(cs: seq<Credential>, m: OrderedMap, id: Blob, n: nat)
    requires 0 < n <= |cs| == |m.order|
    ensures Without(cs[..n], id) == Without(cs[..n - 1], id) + if cs[n - 1].credentialId != id then [cs[n - 1]] else []
    ensures var k := m.order[n - 1];
            KeysWithout(m, m.order[..n], id) ==
            KeysWithout(m, m.order[..n - 1], id) + if k in m.at && m.at[k].credentialId != id then [k] else []
  {
    assert cs[..n][..n - 1] == cs[..n - 1] && m.order[..n][..n - 1] == m.order[..n - 1];
  }

  lemma {:induction false} KeysAlign(cs: seq<Credential>, m: OrderedMap, id: Blob, n: nat)
    requires Represents(cs, m) && n <= |cs|
    ensures KeysWithout(m, m.order[..n], id) == Keys(Without(cs[..n], id))
  {
    if n > 0 {
      var c, kept := cs[n - 1], Without(cs[..n - 1], id);
      KeysAlign(cs, m, id, n - 1);
      UnfoldLast(cs, m, id, n);
      RepresentsAt(cs, m, n - 1);
      assert c in cs && m.at[c.Key()] == c && m.order[n - 1] == c.Key();
      KeysAppend(kept, c);
      hide Keys, NoRepeats, Represents, Without, KeysWithout;
      assert kept + [] == kept && Keys(kept) + [] == Keys(kept);
    }
  }

  lemma KeysAppend(cs: seq<Credential>, c: Credential)
    ensures Keys(cs + [c]) == Keys(cs) + [c.Key()]
  {
  }

  /** What is left of the map is what is left of the list. */
  lemma RemainingEntries(cs: seq<Credential>, m: OrderedMap, id: Blob)
    requires Represents(cs, m)
    ensures forall k <- MapRemove(m, id).at :: k in Keys(Without(cs, id))
    ensures forall c <- Without(cs, id) :: c.Key() in MapRemove(m, id).at && MapRemove(m, id).at[c.Key()] == c
  {
    WithoutIsClean(cs, id);
    hide Without, KeysWithout, NoRepeats, Keys;
    forall k | k in MapRemove(m, id).at
      ensures k in Keys(Without(cs, id))
    {
      KeyIsListed(cs, m, k);
      KeyListed(Without(cs, id), m.at[k]);
    }
  }

  lemma RemoveRefines(cs: seq<Credential>, m: OrderedMap, id: Blob)
    requires Represents(cs, m)
    ensures Represents(Without(cs, id), MapRemove(m, id))
  {
    KeysAlign(cs, m, id, |cs|);
    assert cs[..|cs|] == cs && m.order[..|cs|] == m.order;
    WithoutKeepsDistinct(cs, id);
    RemainingEntries(cs, m, id);
    hide Without, KeysWithout, NoRepeats, Keys;
  }

  lemma KeyIsListed(cs: seq<Credential>, m: OrderedMap, k: (string, Blob))
    requires Represents(cs, m) && k in m.at
    ensures m.at[k] in cs && m.at[k].Key() == k
  {
    var j :| 0 <= j < |cs| && m.order[j] == k;
    RepresentsAt(cs, m, j);
    assert cs[j] in cs;
  }

  lemma KeyListed(cs: seq<Credential>, c: Credential)
    requires c in cs
    ensures c.Key() in Keys(cs)
  {
    var i :| 0 <= i < |cs| && cs[i] == c;
    assert Keys(cs)[i] == c.Key();
  }

  // ---------------------------------------------------------------- looking up

  /** The list of a relying party consists of exactly its entries of the map. */
  lemma {:induction false} OfRpMembers(cs: seq<Credential>, rpId: string)
    ensures forall c :: c in OfRp(cs, rpId) <==> c in cs && c.rpId == rpId
  {
    if cs != [] {
      OfRpMembers(cs[..|cs| - 1], rpId);
    }
  }
}
