/**
 * The SPI flash as the firmware sees it through `FlashStorage`: one byte
 * array, read into caller buffers and written in place. A write replaces the
 * bytes it covers and leaves every other byte as it was (the driver erases
 * and rewrites whole sectors around it).
 */
module Flash {
  import opened Bytes

  /** The flash after `data` is written at `offset`. */
  function Splice(flash: seq<u8>, offset: nat, data: seq<u8>): (r: seq<u8>)
    requires offset + |data| <= |flash|
    ensures |r| == |flash|
    ensures r[offset..offset + |data|] == data
  {
    flash[..offset] + data + flash[offset + |data|..]
  }

  /** A write changes no byte outside the range it covers. */
  lemma SpliceOutside(flash: seq<u8>, offset: nat, data: seq<u8>)
    requires offset + |data| <= |flash|
    ensures forall i :: 0 <= i < |flash| && !(offset <= i < offset + |data|) ==> Splice(flash, offset, data)[i] == flash[i]
  {
  }

  /** A write that lies entirely outside `[lo, hi)` leaves that range as it was. */
  lemma SpliceElsewhere(flash: seq<u8>, offset: nat, data: seq<u8>, lo: nat, hi: nat)
    requires offset + |data| <= |flash| && lo <= hi <= |flash|
    requires offset + |data| <= lo || hi <= offset
    ensures Splice(flash, offset, data)[lo..hi] == flash[lo..hi]
  {
    SpliceOutside(flash, offset, data);
  }

  /** A second write elsewhere keeps what the first one wrote. */
  lemma SpliceKeepsEarlier(flash: seq<u8>, o1: nat, a: seq<u8>, o2: nat, b: seq<u8>)
    requires o1 + |a| <= |flash| && o2 + |b| <= |flash|
    requires o1 + |a| <= o2 || o2 + |b| <= o1
    ensures Splice(Splice(flash, o1, a), o2, b)[o1..o1 + |a|] == a
  {
    SpliceElsewhere(Splice(flash, o1, a), o2, b, o1, o1 + |a|);
  }

  /** Two writes back to back are one write of the two pieces joined. */
  lemma SpliceAdjacent(flash: seq<u8>, offset: nat, a: seq<u8>, b: seq<u8>)
    requires offset + |a| + |b| <= |flash|
    ensures Splice(Splice(flash, offset, a), offset + |a|, b) == Splice(flash, offset, a + b)
  {
    var lhs := Splice(Splice(flash, offset, a), offset + |a|, b);
    var rhs := Splice(flash, offset, a + b);
    SpliceOutside(flash, offset, a);
    SpliceOutside(Splice(flash, offset, a), offset + |a|, b);
    SpliceOutside(flash, offset, a + b);
    forall i | 0 <= i < |flash| ensures lhs[i] == rhs[i] {
      if offset <= i < offset + |a| {
        assert rhs[i] == rhs[offset..offset + |a| + |b|][i - offset];
        assert Splice(flash, offset, a)[i] == Splice(flash, offset, a)[offset..offset + |a|][i - offset];
      } else if offset + |a| <= i < offset + |a| + |b| {
        assert rhs[i] == rhs[offset..offset + |a| + |b|][i - offset];
        assert lhs[i] == lhs[offset + |a|..offset + |a| + |b|][i - offset - |a|];
      }
    }
  }

  /** `ReadStorage::read`: fill `buffer` with the flash bytes at `offset`. */
  method Read(flash: array<u8>, offset: nat, buffer: array<u8>)
    requires buffer != flash && offset + buffer.Length <= flash.Length
    modifies buffer
    ensures buffer[..] == flash[offset..offset + buffer.Length]
  {
    for i := 0 to buffer.Length
      invariant buffer[..i] == flash[offset..offset + i]
    {
      buffer[i] := flash[offset + i];
      assert buffer[..i + 1] == buffer[..i] + [buffer[i]];
      assert flash[offset..offset + i + 1] == flash[offset..offset + i] + [flash[offset + i]];
    }
    assert buffer[..] == buffer[..buffer.Length];
  }

  /** Writing one more byte extends a write by one position. */
  lemma SpliceStep(flash: seq<u8>, offset: nat, data: seq<u8>, i: nat)
    requires offset + |data| <= |flash| && i < |data|
    ensures Splice(flash, offset, data[..i + 1]) == Splice(flash, offset, data[..i])[offset + i := data[i]]
  {
    var lhs := Splice(flash, offset, data[..i + 1]);
    var rhs := Splice(flash, offset, data[..i])[offset + i := data[i]];
    SpliceOutside(flash, offset, data[..i + 1]);
    SpliceOutside(flash, offset, data[..i]);
    forall j | 0 <= j < |flash| ensures lhs[j] == rhs[j] {
      if offset <= j < offset + i {
        assert lhs[j] == lhs[offset..offset + i + 1][j - offset];
        assert Splice(flash, offset, data[..i])[j] == Splice(flash, offset, data[..i])[offset..offset + i][j - offset];
      } else if j == offset + i {
        assert lhs[j] == lhs[offset..offset + i + 1][i];
      }
    }
  }

  /** `Storage::write`: overwrite the flash bytes at `offset` with `data`. */
  method Write(flash: array<u8>, offset: nat, data: seq<u8>)
    requires offset + |data| <= flash.Length
    modifies flash
    ensures flash[..] == Splice(old(flash[..]), offset, data)
  {
    ghost var before := flash[..];
    for i := 0 to |data|
      invariant flash[..] == Splice(before, offset, data[..i])
    {
      ghost var current := flash[..];
      flash[offset + i] := data[i];
      assert flash[..] == current[offset + i := data[i]];
      SpliceStep(before, offset, data, i);
    }
    assert data[..|data|] == data;
  }
}
