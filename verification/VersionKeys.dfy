/** Keys of the versions bucket: the object key, a NUL byte, the version id. */
module VersionKeys {
  import opened ByteStrings
  import opened ObjectTypes
  import opened Outcomes

  function VersionKey(key: Bytes, versionId: Bytes): Bytes {
    key + [NUL] + versionId
  }

  function NulFrom(s: Bytes, i: nat): (r: nat)
    requires i <= |s|
    ensures i <= r <= |s|
    ensures forall j :: i <= j < r ==> s[j] != NUL
    ensures r < |s| ==> s[r] == NUL
    decreases |s| - i
  {
    if i == |s| || s[i] == NUL then i else NulFrom(s, i + 1)
  }

  /** strings.SplitN(k, "\x00", 2), which has two parts when a NUL is present. */
  function Split(vk: Bytes): (r: Option<(Bytes, Bytes)>)
    ensures r.Some? ==> vk == VersionKey(r.value.0, r.value.1) && NoNul(r.value.0)
  {
    var i := NulFrom(vk, 0);
    if i == |vk| then None else Some((vk[..i], vk[i + 1..]))
  }

  lemma SplitVersionKey(key: Bytes, versionId: Bytes)
    requires NoNul(key)
    ensures Split(VersionKey(key, versionId)) == Some((key, versionId))
  {
    var vk := VersionKey(key, versionId);
    assert vk[|key|] == NUL;
    assert forall j :: 0 <= j < |key| ==> vk[j] == key[j];
    assert NulFrom(vk, 0) == |key|;
    assert vk[..|key|] == key && vk[|key| + 1..] == versionId;
  }

  lemma VersionKeyInjective(k1: Bytes, v1: Bytes, k2: Bytes, v2: Bytes)
    requires NoNul(k1) && NoNul(k2)
    ensures VersionKey(k1, v1) == VersionKey(k2, v2) <==> k1 == k2 && v1 == v2
  {
    SplitVersionKey(k1, v1);
    SplitVersionKey(k2, v2);
  }

  /** A version key of `key` is exactly one that starts with `key` and a NUL. */
  lemma PrefixIsKey(key: Bytes, vk: Bytes)
    requires NoNul(key)
    ensures HasPrefix(vk, key + [NUL]) <==> Split(vk).Some? && Split(vk).value.0 == key
  {
    if HasPrefix(vk, key + [NUL]) {
      var rest := vk[|key| + 1..];
      assert vk == vk[..|key| + 1] + rest;
      assert vk == VersionKey(key, rest);
      SplitVersionKey(key, rest);
    }
  }

  /** A NUL-free prefix of a version key is a prefix of its object key. */
  lemma PrefixOfKey(p: Bytes, key: Bytes, versionId: Bytes)
    requires NoNul(p) && NoNul(key)
    ensures HasPrefix(VersionKey(key, versionId), p) <==> HasPrefix(key, p)
  {
    var vk := VersionKey(key, versionId);
    assert vk[|key|] == NUL;
    if |p| <= |key| {
      assert vk[..|p|] == key[..|p|];
    } else {
      assert |p| <= |vk| ==> vk[..|p|][|key|] == NUL;
    }
  }

  /** Every record sits under its own key and version id. */
  ghost predicate WellKeyed(vs: map<Bytes, ObjectMeta>) {
    forall vk :: vk in vs ==> Split(vk).Some? && Split(vk).value.1 == vs[vk].versionId
  }

  function KeyOf(vk: Bytes): Bytes
    requires Split(vk).Some?
  {
    Split(vk).value.0
  }

  /** The version keys of one object key, as the cursor loops of the store see them. */
  function RecordsOf(vs: map<Bytes, ObjectMeta>, key: Bytes): set<Bytes> {
    set vk | vk in vs && HasPrefix(vk, key + [NUL])
  }
}
