/** The octet of a button table in a status frame, lowest button first. */
module ButtonOctets {
  import opened DashInput

  function Bit(on: bool): nat { if on then 1 else 0 }

  /** The bits from button `k` on as a number, lowest first. */
  function From(t: Table, k: nat): nat
    requires k <= 8
    decreases 8 - k
  {
    if k == 8 then 0 else Bit(t[k]) + 2 * From(t, k + 1)
  }

  /** The octet of a button table. */
  function Value(t: Table): nat { From(t, 0) }

  lemma {:induction false} BitOf(t: Table, j: nat, k: nat)
    requires j + k < 8
    ensures BitAt(From(t, j), k) == t[j + k]
    decreases k
  {
    if k > 0 {
      BitOf(t, j + 1, k - 1);
      assert From(t, j) / 2 == From(t, j + 1);
    }
  }

  function TwoTo(k: nat): nat { if k == 0 then 1 else 2 * TwoTo(k - 1) }

  lemma {:induction false} FromIsSmall(t: Table, k: nat)
    requires k <= 8
    ensures From(t, k) < TwoTo(8 - k)
    decreases 8 - k
  {
    if k < 8 { FromIsSmall(t, k + 1); }
  }

  lemma ValueIsOctet(t: Table)
    ensures Value(t) % 256 == Value(t)
  {
    FromIsSmall(t, 0);
    assert TwoTo(8) == 256;
  }

  lemma MaskAt(t: Table, start: nat, k: nat)
    requires start == 0 && k < 8
    ensures Mask(From(t, start))[k] == BitAt(From(t, start) % 256, k)
    ensures BitAt(From(t, start), k) == t[k]
  {
    BitOf(t, start, k);
  }

  /** The dash reads back the table that was sent. */
  lemma MaskBack(t: Table)
    ensures Mask(Value(t)) == t
  {
    ValueIsOctet(t);
    forall k | 0 <= k < 8 ensures Mask(Value(t))[k] == t[k] {
      MaskAt(t, 0, k);
    }
  }

  lemma {:induction false} BitsOf(t: Table, w: nat, k: nat)
    requires k <= 8 && w < TwoTo(8 - k)
    requires forall j :: k <= j < 8 ==> t[j] == BitAt(w, j - k)
    ensures From(t, k) == w
    decreases 8 - k
  {
    if k < 8 {
      forall j | k + 1 <= j < 8 ensures t[j] == BitAt(w / 2, j - (k + 1)) {
        assert BitAt(w, j - k) == BitAt(w / 2, j - k - 1);
      }
      BitsOf(t, w / 2, k + 1);
      assert t[k] == BitAt(w, 0);
    }
  }

  /** A status value is read as its lowest octet. */
  lemma MaskIsOctet(value: int)
    ensures Value(Mask(value)) == value % 256
  {
    assert TwoTo(8) == 256;
    BitsOf(Mask(value), value % 256, 0);
  }
}
