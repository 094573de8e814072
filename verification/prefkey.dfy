/** `PreferenceKey`: an ordered tuple of possibly-null fields whose equality and
    hash code are structural over the tuple. Every preference's identity, in the
    file loader's index and in the merge snapshot, is one of these. */
module PrefKey {
  import opened Common

  /** The constructor takes any tuple, null elements included; it validates nothing. */
  datatype PreferenceKey = PreferenceKey(fields: seq<NStr>)

  /** The owner that stands in for a null owner in the domain and entity keys,
      and that every application-scope file record uses. */
  const ApplicationOwner: string := ":APPLICATION:"

  /** The three-field key `(owner, key, scopeName)` every preference kind builds. */
  function Triple(owner: NStr, key: NStr, scopeName: NStr): (k: PreferenceKey)
    ensures |k.fields| == 3
    ensures k.fields[0] == owner && k.fields[1] == key && k.fields[2] == scopeName
  {
    PreferenceKey([owner, key, scopeName])
  }

  /** `PreferenceKey.equals`: `Arrays.equals` of the field arrays, same length and
      element-wise `Objects.equals`. */
  predicate KeyEquals(a: PreferenceKey, b: PreferenceKey)
    ensures KeyEquals(a, b) ==> KeyHash(a) == KeyHash(b)
  {
    var same := |a.fields| == |b.fields| && forall i :: 0 <= i < |a.fields| ==> a.fields[i] == b.fields[i];
    assert same ==> a.fields == b.fields;
    same
  }

  /** `PreferenceKey.hashCode`: `31 * 1 + Arrays.hashCode(fields)`, wrapped to an int. */
  function KeyHash(k: PreferenceKey): (h: int)
    ensures -TwoTo31 <= h < TwoTo31
  {
    Wrap32(31 + ObjectsHash(k.fields))
  }

  /** The tuple equality is exactly structural equality of the key values, so a
      `map<PreferenceKey, _>` indexes exactly as the Java `HashMap` does. */
  lemma KeyEqualsIsEquality(a: PreferenceKey, b: PreferenceKey)
    ensures KeyEquals(a, b) <==> a == b
  {
    if KeyEquals(a, b) {
      assert a.fields == b.fields;
    }
  }

  /** Equal keys hash equally (hashCode is consistent with equals). */
  lemma KeyHashConsistent(a: PreferenceKey, b: PreferenceKey)
    requires KeyEquals(a, b)
    ensures KeyHash(a) == KeyHash(b)
  {
    KeyEqualsIsEquality(a, b);
  }

  /** Field order matters: swapping two fields gives an equal key only when the
      two fields are equal. */
  lemma FieldOrderMatters(x: NStr, y: NStr)
    ensures KeyEquals(PreferenceKey([x, y]), PreferenceKey([y, x])) <==> x == y
  {
    if KeyEquals(PreferenceKey([x, y]), PreferenceKey([y, x])) {
      assert PreferenceKey([x, y]).fields[0] == PreferenceKey([y, x]).fields[0];
    }
  }

  /** Triples are equal exactly when the three components are. */
  lemma TripleInjective(o1: NStr, k1: NStr, s1: NStr, o2: NStr, k2: NStr, s2: NStr)
    ensures Triple(o1, k1, s1) == Triple(o2, k2, s2) <==> o1 == o2 && k1 == k2 && s1 == s2
  {
    if Triple(o1, k1, s1) == Triple(o2, k2, s2) {
      assert Triple(o1, k1, s1).fields[2] == Triple(o2, k2, s2).fields[2];
    }
  }
}
