/**
 * The node identifier: the class number in decimal, then the type name,
 * then the last path component of the node's object-ID URI (the object key).
 * The composition is plain concatenation, so it can be read back only when
 * the pieces cannot bleed into one another.
 */
module NodeId {
  import opened Decimal

  function ComposeId(nodeClass: int, typeName: string, objectKey: string): string {
    DecimalString(nodeClass) + typeName + objectKey
  }

  /**
   * `s` reads as an identifier of class `nodeClass`, type `typeName` and key
   * `objectKey`: the type and key end it, and what precedes them is the
   * class number written in normal decimal form.
   */
  ghost predicate IdShape(s: string, nodeClass: int, typeName: string, objectKey: string) {
    var cut := |s| - |typeName| - |objectKey|;
    && 1 <= cut
    && s[cut..] == typeName + objectKey
    && IsCanonicalDecimal(s[..cut])
    && ParseDecimal(s[..cut]) == nodeClass
  }

  /** The shape fixes the identifier: it holds of the composed string and of no other. */
  lemma IdShapeExact(s: string, nodeClass: int, typeName: string, objectKey: string)
    ensures IdShape(s, nodeClass, typeName, objectKey) <==> s == ComposeId(nodeClass, typeName, objectKey)
  {
    var d := DecimalString(nodeClass);
    var id := ComposeId(nodeClass, typeName, objectKey);
    assert id[..|d|] == d;
    assert id[|d|..] == typeName + objectKey;
    DecimalRoundTrip(nodeClass);
    if IdShape(s, nodeClass, typeName, objectKey) {
      var cut := |s| - |typeName| - |objectKey|;
      CanonicalDecimalUnique(s[..cut], d);
      assert s == s[..cut] + s[cut..];
    }
  }

  /**
   * The shape of the last path component of a permanent object-ID URI in
   * the persistent store: the letter `p` followed by a decimal number.
   */
  predicate PermanentKey(k: string) {
    |k| >= 2 && KeyShaped(k)
  }

  predicate KeyShaped(k: string) {
    |k| >= 1 && k[0] == 'p' && forall i :: 1 <= i < |k| ==> IsDigit(k[i])
  }

  /** A type name whose first character (if any) is not a decimal digit. */
  predicate PlainTypeName(t: string) {
    |t| == 0 || !IsDigit(t[0])
  }

  /** The end of the run of digits that starts at `i`. */
  function DigitRunEnd(s: string, i: nat): (j: nat)
    requires i <= |s|
    ensures i <= j <= |s|
    decreases |s| - i
  {
    if i == |s| || !IsDigit(s[i]) then i else DigitRunEnd(s, i + 1)
  }

  lemma {:induction false} DigitRunEndIs(s: string, i: nat, j: nat)
    requires i <= j <= |s|
    requires forall k :: i <= k < j ==> IsDigit(s[k])
    requires j == |s| || !IsDigit(s[j])
    ensures DigitRunEnd(s, i) == j
    decreases j - i
  {
    if i < j {
      DigitRunEndIs(s, i + 1, j);
    }
  }

  /** The position of the last `p` in `s`, or -1 when there is none. */
  function LastP(s: string): (k: int)
    ensures -1 <= k < |s|
  {
    if |s| == 0 then -1
    else if s[|s| - 1] == 'p' then |s| - 1
    else LastP(s[..|s| - 1])
  }

  lemma {:induction false} LastPOfKey(t: string, k: string)
    requires KeyShaped(k)
    ensures LastP(t + k) == |t|
    decreases |k|
  {
    var s := t + k;
    if |k| > 1 {
      assert s[|s| - 1] == k[|k| - 1];
      assert s[..|s| - 1] == t + k[..|k| - 1];
      LastPOfKey(t, k[..|k| - 1]);
    }
  }

  /** The decimal prefix of an identifier ends where the type or key begins. */
  lemma ClassPrefixLength(nodeClass: int, rest: string)
    requires |rest| >= 1 && !IsDigit(rest[0])
    ensures DigitRunEnd(DecimalString(nodeClass) + rest, 1) == |DecimalString(nodeClass)|
  {
    var a := DecimalString(nodeClass);
    var s := a + rest;
    assert s[|a|] == rest[0];
    assert forall k :: 1 <= k < |a| ==> s[k] == a[k];
    DigitRunEndIs(s, 1, |a|);
  }

  /**
   * Identifiers are unique when no type name starts with a digit and every
   * object key is permanent: equal identifiers then come from equal
   * class numbers, type names and keys.
   */
  lemma IdUnique(c1: int, t1: string, k1: string, c2: int, t2: string, k2: string)
    requires PlainTypeName(t1) && PlainTypeName(t2)
    requires PermanentKey(k1) && PermanentKey(k2)
    requires ComposeId(c1, t1, k1) == ComposeId(c2, t2, k2)
    ensures c1 == c2 && t1 == t2 && k1 == k2
  {
    var a1, a2 := DecimalString(c1), DecimalString(c2);
    var u1, u2 := t1 + k1, t2 + k2;
    var s := ComposeId(c1, t1, k1);
    assert s == a1 + u1 && s == a2 + u2;
    assert u1[0] == (if |t1| == 0 then k1[0] else t1[0]);
    assert u2[0] == (if |t2| == 0 then k2[0] else t2[0]);
    ClassPrefixLength(c1, u1);
    ClassPrefixLength(c2, u2);
    assert a1 == s[..|a1|] == a2;
    DecimalInjective(c1, c2);
    assert u1 == s[|a1|..] == u2;
    LastPOfKey(t1, k1);
    LastPOfKey(t2, k2);
    assert t1 == u1[..|t1|] && t2 == u2[..|t2|];
    assert k1 == u1[|t1|..] && k2 == u2[|t2|..];
  }

  /** Without those conditions distinct nodes can share an identifier. */
  lemma IdCollision()
    ensures ComposeId(1, "2a", "p1") == ComposeId(12, "a", "p1")
  {
  }
}
