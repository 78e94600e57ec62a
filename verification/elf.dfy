/**
 * The ELF-to-flat-binary converter (`elf_to_bin`).
 *
 * The parsed executable is an input record: the header's `e_ehsize`, the raw file bytes
 * and the program-header table. The converter keeps the program headers that describe a
 * loadable, non-empty, readable segment lying after the ELF header, and lays their file
 * bytes out one after the other, filling every address gap between two consecutive
 * segments with zero bytes. The result is the byte buffer and the physical address of
 * the first selected segment, which must fit in 32 bits.
 */
module ElfImage {
  import opened Ints
  import opened Wrappers
  import opened Errors

  /** `PT_LOAD` of the ELF specification. */
  const PT_LOAD: u32 := 1

  datatype ProgramHeader = ProgramHeader(
    pType: u32,
    offset: u64,
    fileSize: u64,
    paddr: u64,
    readable: bool)

  datatype Elf = Elf(ehsize: u16, file: seq<u8>, programHeaders: seq<ProgramHeader>)

  /** The four-part filter applied to every program header. */
  predicate Qualifies(ph: ProgramHeader, ehsize: u16) {
    && ph.pType == PT_LOAD
    && ph.fileSize > 0
    && ph.offset >= ehsize
    && ph.readable
  }

  /** The program headers that pass the filter, in table order. */
  function Selected(hs: seq<ProgramHeader>, ehsize: u16): (r: seq<ProgramHeader>)
    ensures |r| <= |hs|
  {
    if hs == [] then []
    else
      var last := hs[|hs| - 1];
      Selected(hs[..|hs| - 1], ehsize) + (if Qualifies(last, ehsize) then [last] else [])
  }

  /** The physical address one past a segment's last byte. */
  function End(ph: ProgramHeader): int {
    ph.paddr + ph.fileSize
  }

  /** Segment `a` ends at or before the address where segment `b` starts. */
  predicate Precedes(a: ProgramHeader, b: ProgramHeader) {
    End(a) <= b.paddr
  }

  /** Segments in increasing address order, pairwise non-overlapping. */
  ghost predicate Ordered(segs: seq<ProgramHeader>) {
    forall i, j {:trigger Precedes(segs[i], segs[j])} :: 0 <= i < j < |segs| ==> Precedes(segs[i], segs[j])
  }

  /** Every segment's file range lies inside the file. */
  ghost predicate InFile(segs: seq<ProgramHeader>, file: seq<u8>) {
    forall i :: 0 <= i < |segs| ==> segs[i].offset + segs[i].fileSize <= |file|
  }

  /** No segment's end address overflows a `u64`. */
  ghost predicate EndsFit(segs: seq<ProgramHeader>) {
    forall i :: 0 <= i < |segs| ==> End(segs[i]) < U64_LIMIT
  }

  /** What the converter needs of its input so that it neither underflows, overflows nor slices out of range. */
  ghost predicate Convertible(elf: Elf) {
    var sel := Selected(elf.programHeaders, elf.ehsize);
    Ordered(sel) && InFile(sel, elf.file) && EndsFit(sel)
  }

  function Zeros(n: nat): (z: seq<u8>)
    ensures |z| == n && forall k :: 0 <= k < n ==> z[k] == 0
  {
    seq(n, _ => 0)
  }

  function SegmentBytes(ph: ProgramHeader, file: seq<u8>): seq<u8>
    requires ph.offset + ph.fileSize <= |file|
  {
    file[ph.offset .. ph.offset + ph.fileSize]
  }

  /**
   * The flat image of the first `n` segments: each segment's bytes, preceded by zero
   * padding as long as the address gap after its predecessor.
   */
  function Image(segs: seq<ProgramHeader>, file: seq<u8>, n: nat): seq<u8>
    requires Ordered(segs) && InFile(segs, file) && n <= |segs|
  {
    if n == 0 then []
    else if n == 1 then SegmentBytes(segs[0], file)
    else
      assert Precedes(segs[n - 2], segs[n - 1]);
      Image(segs, file, n - 1) + Zeros(segs[n - 1].paddr - End(segs[n - 2])) + SegmentBytes(segs[n - 1], file)
  }

  /** The flat image of all the segments. */
  function Layout(segs: seq<ProgramHeader>, file: seq<u8>): seq<u8>
    requires Ordered(segs) && InFile(segs, file)
  {
    Image(segs, file, |segs|)
  }

  /** Segment `i` ends no later than segment `k` ends when `i <= k`, and starts no earlier than segment 0. */
  lemma OrderedEnds(segs: seq<ProgramHeader>, i: nat, k: nat)
    requires Ordered(segs) && i <= k < |segs|
    ensures End(segs[i]) <= End(segs[k]) && segs[0].paddr <= segs[i].paddr
  {
    if i < k {
      assert Precedes(segs[i], segs[k]);
    }
    if 0 < i {
      assert Precedes(segs[0], segs[i]);
    }
  }

  /** The image of `n` segments ends at the `n`-th segment's end address, counted from the first segment's address. */
  lemma {:induction false} ImageLength(segs: seq<ProgramHeader>, file: seq<u8>, n: nat)
    requires Ordered(segs) && InFile(segs, file) && 0 < n <= |segs|
    ensures |Image(segs, file, n)| == End(segs[n - 1]) - segs[0].paddr
  {
    if n > 1 {
      ImageLength(segs, file, n - 1);
      assert Precedes(segs[n - 2], segs[n - 1]);
    }
  }

  /** The output length is the last segment's end address minus the start address. */
  lemma LayoutLength(segs: seq<ProgramHeader>, file: seq<u8>)
    requires Ordered(segs) && InFile(segs, file) && segs != []
    ensures |Layout(segs, file)| == End(segs[|segs| - 1]) - segs[0].paddr
  {
    ImageLength(segs, file, |segs|);
  }

  /** One unfolding of `Image`, with the lengths of its parts. */
  lemma ImageUnfold(segs: seq<ProgramHeader>, file: seq<u8>, n: nat)
    requires Ordered(segs) && InFile(segs, file) && 1 < n <= |segs|
    ensures End(segs[n - 2]) <= segs[n - 1].paddr
    ensures Image(segs, file, n)
            == Image(segs, file, n - 1) + Zeros(segs[n - 1].paddr - End(segs[n - 2])) + SegmentBytes(segs[n - 1], file)
    ensures |Image(segs, file, n - 1)| == End(segs[n - 2]) - segs[0].paddr
  {
    assert Precedes(segs[n - 2], segs[n - 1]);
    ImageLength(segs, file, n - 1);
  }

  /** In the image of `n` segments, segment `i < n` sits at offset `paddr - start`. */
  lemma {:induction false} ImagePlacesSegment(segs: seq<ProgramHeader>, file: seq<u8>, n: nat, i: nat, j: nat)
    requires Ordered(segs) && InFile(segs, file) && n <= |segs|
    requires i < n && j < segs[i].fileSize
    ensures segs[0].paddr <= segs[i].paddr
    ensures segs[i].paddr - segs[0].paddr + j < |Image(segs, file, n)|
    ensures Image(segs, file, n)[segs[i].paddr - segs[0].paddr + j] == file[segs[i].offset + j]
    decreases n, 1
  {
    if i == n - 1 {
      ImagePlacesLast(segs, file, n, j);
    } else {
      ImagePlacesEarlier(segs, file, n, i, j);
    }
  }

  lemma {:induction false} ImagePlacesLast(segs: seq<ProgramHeader>, file: seq<u8>, n: nat, j: nat)
    requires Ordered(segs) && InFile(segs, file) && 0 < n <= |segs|
    requires j < segs[n - 1].fileSize
    ensures segs[0].paddr <= segs[n - 1].paddr
    ensures segs[n - 1].paddr - segs[0].paddr + j < |Image(segs, file, n)|
    ensures Image(segs, file, n)[segs[n - 1].paddr - segs[0].paddr + j] == file[segs[n - 1].offset + j]
  {
    OrderedEnds(segs, n - 1, n - 1);
    ImageLength(segs, file, n);
    if n > 1 {
      ImageUnfold(segs, file, n);
      var a := Image(segs, file, n - 1);
      var b := Zeros(segs[n - 1].paddr - End(segs[n - 2]));
      var c := SegmentBytes(segs[n - 1], file);
      assert (a + b + c)[|a + b| + j] == c[j];
    }
  }

  lemma {:induction false} ImagePlacesEarlier(segs: seq<ProgramHeader>, file: seq<u8>, n: nat, i: nat, j: nat)
    requires Ordered(segs) && InFile(segs, file) && n <= |segs|
    requires i < n - 1 && j < segs[i].fileSize
    ensures segs[0].paddr <= segs[i].paddr
    ensures segs[i].paddr - segs[0].paddr + j < |Image(segs, file, n)|
    ensures Image(segs, file, n)[segs[i].paddr - segs[0].paddr + j] == file[segs[i].offset + j]
    decreases n, 0
  {
    ImageUnfold(segs, file, n);
    OrderedEnds(segs, i, n - 2);
    ImagePlacesSegment(segs, file, n - 1, i, j);
    var a := Image(segs, file, n - 1);
    var b := Zeros(segs[n - 1].paddr - End(segs[n - 2]));
    var c := SegmentBytes(segs[n - 1], file);
    var idx := segs[i].paddr - segs[0].paddr + j;
    assert (a + b + c)[idx] == a[idx];
  }

  /** Each segment's file bytes `file[p_offset .. p_offset + p_filesz]` appear at output offset `p_paddr - start`. */
  lemma LayoutPlacesSegment(segs: seq<ProgramHeader>, file: seq<u8>, i: nat)
    requires Ordered(segs) && InFile(segs, file) && i < |segs|
    ensures segs[0].paddr <= segs[i].paddr
    ensures var at := segs[i].paddr - segs[0].paddr;
            at + segs[i].fileSize <= |Layout(segs, file)|
            && Layout(segs, file)[at .. at + segs[i].fileSize] == SegmentBytes(segs[i], file)
  {
    OrderedEnds(segs, i, |segs| - 1);
    LayoutLength(segs, file);
    var at := segs[i].paddr - segs[0].paddr;
    forall j | 0 <= j < segs[i].fileSize
      ensures Layout(segs, file)[at + j] == SegmentBytes(segs[i], file)[j]
    {
      ImagePlacesSegment(segs, file, |segs|, i, j);
    }
  }

  /** In the image of `n` segments, the bytes between two consecutive segments are zero. */
  lemma {:induction false} ImageGapIsZero(segs: seq<ProgramHeader>, file: seq<u8>, n: nat, i: nat, k: int)
    requires Ordered(segs) && InFile(segs, file) && n <= |segs|
    requires i + 1 < n
    requires End(segs[i]) - segs[0].paddr <= k < segs[i + 1].paddr - segs[0].paddr
    ensures 0 <= k < |Image(segs, file, n)|
    ensures Image(segs, file, n)[k] == 0
    decreases n, 1
  {
    if i + 1 == n - 1 {
      ImageLastGapIsZero(segs, file, n, k);
    } else {
      ImageEarlierGapIsZero(segs, file, n, i, k);
    }
  }

  lemma {:induction false} ImageLastGapIsZero(segs: seq<ProgramHeader>, file: seq<u8>, n: nat, k: int)
    requires Ordered(segs) && InFile(segs, file) && 1 < n <= |segs|
    requires End(segs[n - 2]) - segs[0].paddr <= k < segs[n - 1].paddr - segs[0].paddr
    ensures 0 <= k < |Image(segs, file, n)|
    ensures Image(segs, file, n)[k] == 0
  {
    OrderedEnds(segs, n - 2, n - 2);
    ImageUnfold(segs, file, n);
    var a := Image(segs, file, n - 1);
    var b := Zeros(segs[n - 1].paddr - End(segs[n - 2]));
    var c := SegmentBytes(segs[n - 1], file);
    assert (a + b + c)[k] == b[k - |a|];
  }

  lemma {:induction false} ImageEarlierGapIsZero(segs: seq<ProgramHeader>, file: seq<u8>, n: nat, i: nat, k: int)
    requires Ordered(segs) && InFile(segs, file) && n <= |segs|
    requires i + 2 < n
    requires End(segs[i]) - segs[0].paddr <= k < segs[i + 1].paddr - segs[0].paddr
    ensures 0 <= k < |Image(segs, file, n)|
    ensures Image(segs, file, n)[k] == 0
    decreases n, 0
  {
    ImageUnfold(segs, file, n);
    OrderedEnds(segs, i + 1, n - 2);
    ImageGapIsZero(segs, file, n - 1, i, k);
    var a := Image(segs, file, n - 1);
    var b := Zeros(segs[n - 1].paddr - End(segs[n - 2]));
    var c := SegmentBytes(segs[n - 1], file);
    assert (a + b + c)[k] == a[k];
  }

  /** All gap bytes are 0: an output byte between the end of one segment and the start of the next is zero. */
  lemma LayoutGapIsZero(segs: seq<ProgramHeader>, file: seq<u8>, i: nat, k: int)
    requires Ordered(segs) && InFile(segs, file) && i + 1 < |segs|
    requires End(segs[i]) - segs[0].paddr <= k < segs[i + 1].paddr - segs[0].paddr
    ensures 0 <= k < |Layout(segs, file)| && Layout(segs, file)[k] == 0
  {
    ImageGapIsZero(segs, file, |segs|, i, k);
  }

  /** Concatenation of the first `n` segments' bytes with no padding at all. */
  function ConcatBytes(segs: seq<ProgramHeader>, file: seq<u8>, n: nat): seq<u8>
    requires InFile(segs, file) && n <= |segs|
  {
    if n == 0 then [] else ConcatBytes(segs, file, n - 1) + SegmentBytes(segs[n - 1], file)
  }

  lemma {:induction false} ImageContiguous(segs: seq<ProgramHeader>, file: seq<u8>, n: nat)
    requires Ordered(segs) && InFile(segs, file) && n <= |segs|
    requires forall i :: 0 < i < |segs| ==> segs[i].paddr == End(segs[i - 1])
    ensures Image(segs, file, n) == ConcatBytes(segs, file, n)
  {
    if n == 1 {
      assert ConcatBytes(segs, file, 0) == [];
    } else if n > 1 {
      ImageContiguous(segs, file, n - 1);
      assert Zeros(0) == [];
    }
  }

  /** Segments whose address ranges touch get no padding: the image is the plain concatenation of their bytes. */
  lemma LayoutContiguous(segs: seq<ProgramHeader>, file: seq<u8>)
    requires Ordered(segs) && InFile(segs, file)
    requires forall i :: 0 < i < |segs| ==> segs[i].paddr == End(segs[i - 1])
    ensures Layout(segs, file) == ConcatBytes(segs, file, |segs|)
  {
    ImageContiguous(segs, file, |segs|);
  }

  lemma {:induction false} SelectedConcat(a: seq<ProgramHeader>, b: seq<ProgramHeader>, ehsize: u16)
    ensures Selected(a + b, ehsize) == Selected(a, ehsize) + Selected(b, ehsize)
  {
    if b == [] {
      assert a + b == a;
    } else {
      var ab := a + b;
      assert ab[..|ab| - 1] == a + b[..|b| - 1];
      SelectedConcat(a, b[..|b| - 1], ehsize);
    }
  }

  /** A header is selected exactly when it is in the table and passes the filter. */
  lemma {:induction false} SelectedMembers(hs: seq<ProgramHeader>, ehsize: u16, ph: ProgramHeader)
    ensures ph in Selected(hs, ehsize) <==> ph in hs && Qualifies(ph, ehsize)
  {
    if hs != [] {
      var init := hs[..|hs| - 1];
      assert hs == init + [hs[|hs| - 1]];
      SelectedMembers(init, ehsize, ph);
    }
  }

  /**
   * A header that fails the filter influences nothing: inserting it anywhere in the
   * table leaves the selection, hence the bytes, the gaps and the start address, unchanged.
   */
  lemma {:induction false} ExcludedHeaderIsIgnored(hs: seq<ProgramHeader>, ehsize: u16, k: nat, ph: ProgramHeader)
    requires k <= |hs| && !Qualifies(ph, ehsize)
    ensures Selected(hs[..k] + [ph] + hs[k..], ehsize) == Selected(hs, ehsize)
  {
    var a, b := hs[..k], hs[k..];
    assert Selected([ph], ehsize) == [] by {
      assert [ph][..0] == [];
    }
    SelectedConcat(a, [ph], ehsize);
    SelectedConcat(a + [ph], b, ehsize);
    SelectedConcat(a, b, ehsize);
    assert a + b == hs;
  }

  /** What one iteration of the converter's loop relies on: the image of one more segment extends the image so far. */
  lemma ImageStep(sel: seq<ProgramHeader>, file: seq<u8>, i: nat)
    requires Ordered(sel) && InFile(sel, file) && EndsFit(sel) && i < |sel|
    ensures sel[i].offset + sel[i].fileSize <= |file| && End(sel[i]) < U64_LIMIT
    ensures i > 0 ==> End(sel[i - 1]) <= sel[i].paddr
    ensures Image(sel, file, i + 1)
            == Image(sel, file, i) + (if i == 0 then [] else Zeros(sel[i].paddr - End(sel[i - 1])))
               + file[sel[i].offset .. sel[i].offset + sel[i].fileSize]
  {
    if i > 0 {
      assert Precedes(sel[i - 1], sel[i]);
    } else {
      assert Image(sel, file, 0) == [];
    }
  }

  /** The physical address of the first selected segment, or 0 when none is selected. */
  function StartAddress(sel: seq<ProgramHeader>): u64 {
    if sel == [] then 0 else sel[0].paddr
  }

  /**
   * `elf_to_bin` after parsing: enumerate the qualifying program headers in table order
   * and grow the output buffer segment by segment.
   */
  method ElfToBin(elf: Elf) returns (r: Result<(seq<u8>, u32), UtilError>)
    requires Convertible(elf)
    ensures Selected(elf.programHeaders, elf.ehsize) == [] ==> r == Ok(([], 0))
    ensures r.Ok? <==> StartAddress(Selected(elf.programHeaders, elf.ehsize)) <= U32_MAX
    ensures r.Ok? ==> var sel := Selected(elf.programHeaders, elf.ehsize);
                      r.value.0 == Layout(sel, elf.file) && r.value.1 == StartAddress(sel)
    ensures r.Err? ==> r.error == UtilError.Elf(Malformed)
  {
    var startAddress: u64 := 0;
    var lastAddress: u64 := 0;
    var data: seq<u8> := [];
    var sel := Selected(elf.programHeaders, elf.ehsize);
    for i := 0 to |sel|
      invariant data == Image(sel, elf.file, i)
      invariant startAddress == if i == 0 then 0 else sel[0].paddr
      invariant i > 0 ==> lastAddress == End(sel[i - 1])
    {
      var ph := sel[i];
      ImageStep(sel, elf.file, i);
      if i == 0 {
        // the first selected segment gives the start address
        startAddress := ph.paddr;
      } else {
        // later segments are preceded by zeros up to their address
        var difference := ph.paddr - lastAddress;
        data := data + Zeros(difference);
      }
      data := data + elf.file[ph.offset .. ph.offset + ph.fileSize];
      lastAddress := ph.paddr + ph.fileSize;
    }
    if startAddress <= U32_MAX {
      r := Ok((data, startAddress));
    } else {
      r := Err(UtilError.Elf(Malformed));
    }
  }
}
