/** The mapping between logical keys and DynamoDB partition keys. */
module PartitionKeys {
  import opened Prelude
  import opened Decimal

  const COLON: byte := 58

  function Prefix(db: int): Bytes {
    Render(db) + [COLON]
  }

  function EncodePK(multiDB: bool, db: int, key: Bytes): Bytes {
    if multiDB then Prefix(db) + key else key
  }

  function DecodePK(multiDB: bool, db: int, pk: Bytes): Option<Bytes> {
    if !multiDB then Some(pk)
    else if Prefix(db) <= pk then Some(pk[|Prefix(db)|..])
    else None
  }

  lemma NoColon(n: int)
    ensures COLON !in Render(n)
  {
  }

  /** The separator ends the number, so one database's prefix never starts another's keys. */
  lemma PrefixFree(d1: int, d2: int, pk: Bytes)
    requires Prefix(d1) <= pk && Prefix(d2) <= pk
    ensures d1 == d2
  {
    NoColon(d1);
    NoColon(d2);
    var m, n := Render(d1), Render(d2);
    assert pk[|m|] == Prefix(d1)[|m|] && pk[|n|] == Prefix(d2)[|n|];
    assert forall i :: 0 <= i < |m| ==> pk[i] == Prefix(d1)[i] == m[i] != COLON;
    assert forall i :: 0 <= i < |n| ==> pk[i] == Prefix(d2)[i] == n[i] != COLON;
    assert |m| == |n|;
    assert m == pk[..|m|] && n == pk[..|n|];
    RenderInjective(d1, d2);
  }

  /** No two (database, key) pairs share a partition key. */
  lemma EncodeInjective(d1: int, k1: Bytes, d2: int, k2: Bytes)
    requires EncodePK(true, d1, k1) == EncodePK(true, d2, k2)
    ensures d1 == d2 && k1 == k2
  {
    PrefixFree(d1, d2, EncodePK(true, d1, k1));
    assert k1 == EncodePK(true, d1, k1)[|Prefix(d1)|..];
    assert k2 == EncodePK(true, d2, k2)[|Prefix(d2)|..];
  }

  /** Decoding with the database that encoded returns the key; any other database is refused. */
  lemma DecodeEncode(multiDB: bool, db: int, other: int, key: Bytes)
    ensures DecodePK(multiDB, db, EncodePK(multiDB, db, key)) == Some(key)
    ensures multiDB && other != db ==> DecodePK(multiDB, other, EncodePK(multiDB, db, key)) == None
  {
    if multiDB {
      assert EncodePK(multiDB, db, key)[|Prefix(db)|..] == key;
      if other != db && Prefix(other) <= EncodePK(multiDB, db, key) {
        PrefixFree(db, other, EncodePK(multiDB, db, key));
      }
    }
  }

  /** Key "a" of database 12 is stored under "12:a", with one database under "a". */
  lemma EncodeExample()
    ensures EncodePK(true, 12, [97]) == [49, 50, 58, 97] && EncodePK(false, 0, [97]) == [97]
  {
    assert Render(12) == [49, 50];
  }

  /** Whatever a database decodes is the encoding of the key it reports. */
  lemma EncodeDecode(multiDB: bool, db: int, pk: Bytes)
    requires DecodePK(multiDB, db, pk).Some?
    ensures EncodePK(multiDB, db, DecodePK(multiDB, db, pk).value) == pk
  {
  }
}
