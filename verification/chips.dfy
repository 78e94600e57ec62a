/**
 * The chip table (`vendor_map`): a constant map from a chip-family name to the
 * (vendor id, product id) pairs its DFU bootloader may enumerate with.
 */
module ChipTable {
  import opened Ints
  import opened Wrappers

  type Pair = (u16, u16)

  /**
   * The table's entries. The source builds a hash map whose iteration order is
   * unspecified; this sequence fixes one order, and every property below that concerns
   * iteration is stated so that it does not depend on it.
   */
  const Entries: seq<(string, seq<Pair>)> := [
    ("stm32", [(0x0483, 0xdf11)]),
    ("gd32vf103", [(0x28e9, 0x0189)])
  ]

  /** `vendor_map()`. */
  function VendorMap(): (m: map<string, seq<Pair>>)
    ensures m.Keys == {"stm32", "gd32vf103"}
    ensures forall e :: e in Entries ==> e.0 in m && m[e.0] == e.1
  {
    map e | e in Entries :: e.0 := e.1
  }

  /** `vendor_map().get(name)`: an exact, case-sensitive key match. */
  function Lookup(name: string): (r: Option<seq<Pair>>)
    ensures r.Some? <==> name == "stm32" || name == "gd32vf103"
    ensures name == "stm32" ==> r == Some([(0x0483, 0xdf11)])
    ensures name == "gd32vf103" ==> r == Some([(0x28e9, 0x0189)])
  {
    var m := VendorMap();
    if name in m then Some(m[name]) else None
  }

  /** Some table entry lists the pair (`vendor.1.contains(&(vid, pid))` for some entry). */
  predicate Known(p: Pair) {
    exists e :: 0 <= e < |Entries| && p in Entries[e].1
  }

  /** Exactly two pairs are known, one per chip family. */
  lemma KnownPairs(p: Pair)
    ensures Known(p) <==> p == (0x0483, 0xdf11) || p == (0x28e9, 0x0189)
  {
    if p == (0x0483, 0xdf11) {
      assert p in Entries[0].1;
    } else if p == (0x28e9, 0x0189) {
      assert p in Entries[1].1;
    }
  }

  /** Names differing only in case are different keys. */
  lemma LookupIsCaseSensitive()
    ensures Lookup("STM32") == None && Lookup("GD32VF103") == None
  {
  }
}
