/** The table descriptor: next-table address in bits 47:12 (47:14 for the 16 KiB granule),
    hierarchical attributes in bits 63:59 and the descriptor type 0b11 in bits 1:0. */
module TableEntries {
  import opened Bits
  import opened Granules

  const TABLE_PA: nat := 0x3000_0000
  const ADDRESS_LIMIT: nat := 0x1_0000_0000_0000

  function PageAddress(g: nat, page: nat): nat {
    TABLE_PA + PageOffset(g, page)
  }

  // The descriptor of table page `page` with attribute field `attrs`.
  function TableEntry(g: nat, page: nat, attrs: nat): nat {
    attrs * 0x800_0000_0000_0000 + PageAddress(g, page) + 3
  }

  function AddressMask(g: nat): nat {
    if g == 4096 then 0x0000_ffff_ffff_f000 else 0x0000_ffff_ffff_c000
  }

  function Attributes(descriptor: nat): nat {
    Shr(descriptor, 59)
  }

  lemma PageAddressAligned(g: nat, page: nat)
    requires IsGranule(g)
    ensures PageAddress(g, page) % 4096 == 0
    ensures g == 16384 ==> PageAddress(g, page) % 16384 == 0
  {
    if g == 16384 {
      assert PageAddress(g, page) == (0xc000 + page) * 16384;
    } else {
      assert PageAddress(g, page) == (0x3_0000 + page) * 4096;
    }
  }

  // A table descriptor seen as a bit string: attributes, address, type.
  lemma EntryAsBits(g: nat, page: nat, attrs: nat)
    requires IsGranule(g) && PageAddress(g, page) < ADDRESS_LIMIT
    ensures Pow2(12) == 4096 && Pow2(36) == 0x10_0000_0000 && PageAddress(g, page) / 4096 < Pow2(36)
    ensures TableEntry(g, page, attrs) == Join(Join(attrs * 2048, PageAddress(g, page) / 4096, 36), 3, 12)
    ensures PageAddress(g, page) == Join(PageAddress(g, page) / 4096, 0, 12)
  {
    Pow2Values();
    PageAddressAligned(g, page);
    var frame := PageAddress(g, page) / 4096;
    JoinIsSum(attrs * 2048, frame, 36);
    JoinIsSum(Join(attrs * 2048, frame, 36), 3, 12);
    JoinIsSum(frame, 0, 12);
  }

  // Or-ing the descriptor type into a page address sets just the low two bits.
  lemma FreshTableEntry(g: nat, page: nat)
    requires IsGranule(g) && PageAddress(g, page) < ADDRESS_LIMIT
    ensures Or(PageAddress(g, page), 3) == TableEntry(g, page, 0)
  {
    EntryAsBits(g, page, 0);
    JoinZero(3, 12);
    OrJoin(PageAddress(g, page) / 4096, 0, 0, 3, 12);
    JoinZero(PageAddress(g, page) / 4096, 36);
  }

  // Masking high and low bits away, at any width: (hi : mid : lo) & (0 : ones : 0).
  lemma MaskMiddle(hi: nat, mid: nat, lo: nat, bits: nat, shift: nat)
    requires lo < Pow2(shift) && mid < Pow2(bits)
    ensures And(Join(Join(hi, mid, bits), lo, shift), Join(Pow2(bits) - 1, 0, shift)) == Join(mid, 0, shift)
  {
    AndJoin(Join(hi, mid, bits), lo, Pow2(bits) - 1, 0, shift);
    AndOnes(hi, mid, bits);
  }

  // Neither the attribute bits nor the descriptor type disturbs the next-table address.
  lemma NextTableAddress(g: nat, page: nat, attrs: nat)
    requires IsGranule(g) && PageAddress(g, page) < ADDRESS_LIMIT
    ensures And(TableEntry(g, page, attrs), 0x0000_ffff_ffff_f000) == PageAddress(g, page)
  {
    EntryAsBits(g, page, attrs);
    MaskMiddle(attrs * 2048, PageAddress(g, page) / 4096, 3, 36, 12);
    JoinIsSum(Pow2(36) - 1, 0, 12);
  }

  // The same under the mask that goes with the granule.
  lemma NextTableAddressMasked(g: nat, page: nat, attrs: nat)
    requires IsGranule(g) && PageAddress(g, page) < ADDRESS_LIMIT
    ensures And(TableEntry(g, page, attrs), AddressMask(g)) == PageAddress(g, page)
  {
    if g == 4096 {
      NextTableAddress(g, page, attrs);
    } else {
      EntryAsBits16K(page, attrs);
      MaskMiddle(attrs * 2048, PageAddress(g, page) / 16384, 3, 34, 14);
      JoinIsSum(Pow2(34) - 1, 0, 14);
    }
  }

  lemma EntryAsBits16K(page: nat, attrs: nat)
    requires PageAddress(16384, page) < ADDRESS_LIMIT
    ensures Pow2(14) == 16384 && Pow2(34) == 0x4_0000_0000 && PageAddress(16384, page) / 16384 < Pow2(34)
    ensures TableEntry(16384, page, attrs) == Join(Join(attrs * 2048, PageAddress(16384, page) / 16384, 34), 3, 14)
    ensures PageAddress(16384, page) == Join(PageAddress(16384, page) / 16384, 0, 14)
  {
    Pow2Values();
    PageAddressAligned(16384, page);
    var frame := PageAddress(16384, page) / 16384;
    JoinIsSum(attrs * 2048, frame, 34);
    JoinIsSum(Join(attrs * 2048, frame, 34), 3, 14);
    JoinIsSum(frame, 0, 14);
  }

  lemma EntryIsJoin(g: nat, page: nat, attrs: nat)
    requires IsGranule(g) && PageAddress(g, page) < ADDRESS_LIMIT
    ensures PageAddress(g, page) + 3 < Pow2(59)
    ensures TableEntry(g, page, attrs) == Join(attrs, PageAddress(g, page) + 3, 59)
  {
    Pow2Values();
    JoinIsSum(attrs, PageAddress(g, page) + 3, 59);
  }

  lemma TableEntryType(g: nat, page: nat, attrs: nat)
    requires IsGranule(g)
    ensures TableEntry(g, page, attrs) % 4 == 3
  {
    PageAddressAligned(g, page);
    var quarter := PageAddress(g, page) / 4096 * 1024;
    RemainderOf(TableEntry(g, page, attrs), 4, attrs * 0x200_0000_0000_0000 + quarter, 3);
  }

  lemma TableEntryAttributes(g: nat, page: nat, attrs: nat)
    requires IsGranule(g) && PageAddress(g, page) < ADDRESS_LIMIT
    ensures Attributes(TableEntry(g, page, attrs)) == attrs
  {
    hide Bits.Shr, Bits.Join, Bits.Pow2;
    EntryIsJoin(g, page, attrs);
    ShrJoin(attrs, PageAddress(g, page) + 3, 59);
  }

  lemma AttributesAsBits(extra: nat)
    ensures Pow2(59) > 0 && extra * 0x800_0000_0000_0000 == Join(extra, 0, 59)
  {
    Pow2Values();
    JoinIsSum(extra, 0, 59);
  }

  // Or-ing attribute bits into a table descriptor touches the attribute field only.
  lemma OrAttributes(g: nat, page: nat, attrs: nat, extra: nat)
    requires IsGranule(g) && PageAddress(g, page) < ADDRESS_LIMIT
    ensures Or(TableEntry(g, page, attrs), extra * 0x800_0000_0000_0000) == TableEntry(g, page, Or(attrs, extra))
  {
    hide Bits.Join, Bits.Pow2;
    EntryIsJoin(g, page, attrs);
    EntryIsJoin(g, page, Or(attrs, extra));
    AttributesAsBits(extra);
    OrJoin(attrs, PageAddress(g, page) + 3, extra, 0, 59);
    assert Or(PageAddress(g, page) + 3, 0) == PageAddress(g, page) + 3;
  }
}
