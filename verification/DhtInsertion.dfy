/** The Huffman table that `memcpy_picture` puts into MJPEG pictures that come without one. */
module DhtInsertion {
  import opened Words
  import opened Stuffing

  const DHT_SIZE := 420

  /** Two bytes as a marker code. */
  predicate MarkerAt(mem: Memory, p: nat, low: byte): (r: bool)
    ensures r <==> mem(p) == 0xFF && mem(p + 1) == low
  {
    mem(p) == 0xFF && mem(p + 1) == low
  }

  const DHT: byte := 0xC4
  const SOF0: byte := 0xC0
  const SOS: byte := 0xDA

  predicate NoMarkerBefore(mem: Memory, p: nat, low: byte) {
    forall q :: 0 <= q < p ==> !MarkerAt(mem, q, low)
  }

  /** A DHT marker at offset 2048 or less, in front of any SOS marker. */
  ghost predicate HasDht(mem: Memory) {
    exists p: nat :: p <= 2048 && MarkerAt(mem, p, DHT) && NoMarkerBefore(mem, p, SOS)
  }

  /** `is_huffman`. */
  method IsHuffman(mem: Memory) returns (found: bool)
    ensures found <==> HasDht(mem)
    ensures found <==> exists p: nat ::
              p <= 2048 && MarkerAt(mem, p, 0xC4) && forall q :: 0 <= q < p ==> !MarkerAt(mem, q, 0xDA)
  {
    var p: nat := 0;
    var i := 0;
    while !MarkerAt(mem, p, SOS)
      invariant i == p <= 2049
      invariant NoMarkerBefore(mem, p, SOS)
      invariant forall q :: 0 <= q < p && q <= 2048 ==> !MarkerAt(mem, q, DHT)
      decreases 2049 - p
    {
      if i > 2048 {
        return false;
      }
      i := i + 1;
      if MarkerAt(mem, p, DHT) {
        return true;
      }
      p := p + 1;
    }
    return false;
  }

  /** The bytes of a picture. */
  function Picture(mem: Memory, size: nat): (s: seq<byte>)
    ensures |s| == size
  {
    seq(size, i requires 0 <= i => mem(i))
  }

  /** Where the frame header starts, if within the picture. */
  ghost predicate SplitsAt(mem: Memory, size: nat, p: nat) {
    p < size && MarkerAt(mem, p, SOF0) && NoMarkerBefore(mem, p, SOF0)
  }

  /** What `memcpy_picture` writes. */
  ghost predicate Inserted(mem: Memory, size: nat, table: seq<byte>, out: seq<byte>) {
    if HasDht(mem) then out == Picture(mem, size)
    else if exists p: nat :: SplitsAt(mem, size, p) then
      exists p: nat :: SplitsAt(mem, size, p) && out == Picture(mem, size)[..p] + table + Picture(mem, size)[p..]
    else out == []
  }

  method CopyTo(out: array<byte>, at: nat, s: seq<byte>)
    requires at + |s| <= out.Length
    modifies out
    ensures out[..at + |s|] == old(out[..at]) + s
    ensures forall k :: at + |s| <= k < out.Length ==> out[k] == old(out[k])
  {
    forall i | 0 <= i < |s| {
      out[at + i] := s[i];
    }
  }

  /** `memcpy_picture`: the number of bytes written to `out`. */
  method MemcpyPicture(out: array<byte>, mem: Memory, size: nat, table: seq<byte>) returns (pos: nat)
    requires |table| == DHT_SIZE && size + DHT_SIZE <= out.Length
    modifies out
    ensures pos <= out.Length && Inserted(mem, size, table, out[..pos])
    ensures forall k :: pos <= k < out.Length ==> out[k] == old(out[k])
    ensures forall p: nat ::
              && !HasDht(mem) && p < size && MarkerAt(mem, p, 0xC0)
              && (forall q :: 0 <= q < p ==> !MarkerAt(mem, q, 0xC0)) ==>
              && pos == size + 420
              && out[..pos] == Picture(mem, size)[..p] + table + Picture(mem, size)[p..]
  {
    var found := IsHuffman(mem);
    pos := 0;
    if !found {
      var cur := 0;
      while !MarkerAt(mem, cur, SOF0) && cur < size
        invariant cur <= size && NoMarkerBefore(mem, cur, SOF0)
      {
        cur := cur + 1;
      }
      if cur >= size {
        assert out[..0] == [];
        return;
      }
      assert SplitsAt(mem, size, cur);
      CopyTo(out, 0, Picture(mem, size)[..cur]);
      CopyTo(out, cur, table);
      CopyTo(out, cur + DHT_SIZE, Picture(mem, size)[cur..]);
      pos := size + DHT_SIZE;
      assert out[..pos] == Picture(mem, size)[..cur] + table + Picture(mem, size)[cur..];
    } else {
      CopyTo(out, 0, Picture(mem, size));
      pos := size;
    }
  }

  // ---------------------------------------------------------------- what insertion keeps

  /** The split is unique, and taking the table out again gives the picture back. */
  lemma RemovingRestores(mem: Memory, size: nat, table: seq<byte>, out: seq<byte>, p: nat)
    requires |table| == DHT_SIZE && !HasDht(mem) && SplitsAt(mem, size, p) && Inserted(mem, size, table, out)
    ensures |out| == size + DHT_SIZE && out[..p] + out[p + DHT_SIZE..] == Picture(mem, size)
    ensures out[p..p + DHT_SIZE] == table
  {
    var q: nat :| SplitsAt(mem, size, q) && out == Picture(mem, size)[..q] + table + Picture(mem, size)[q..];
    SplitUnique(mem, size, p, q);
    assert out[..p] == Picture(mem, size)[..p];
    assert out[p + DHT_SIZE..] == Picture(mem, size)[p..];
  }

  lemma SplitUnique(mem: Memory, size: nat, p: nat, q: nat)
    requires SplitsAt(mem, size, p) && SplitsAt(mem, size, q)
    ensures p == q
  {
    assert p < q ==> !MarkerAt(mem, p, SOF0);
    assert q < p ==> !MarkerAt(mem, q, SOF0);
  }

  /** Markers in front of the split are those of the input. */
  lemma SameMarkers(mem: Memory, size: nat, table: seq<byte>, out: seq<byte>, p: nat, mem': Memory, q: nat, low: byte)
    requires |table| == DHT_SIZE && table[0] == 0xFF && SplitsAt(mem, size, p)
    requires out == Picture(mem, size)[..p] + table + Picture(mem, size)[p..] && HoldsAt(mem', 0, out)
    requires q < p && low != 0xFF
    ensures MarkerAt(mem', q, low) <==> MarkerAt(mem, q, low)
  {
    assert mem'(0 + q) == out[q] == mem(q);
    assert mem'(0 + (q + 1)) == out[q + 1];
    if q + 1 == p {
      assert out[q + 1] == table[0];
    } else {
      assert out[q + 1] == mem(q + 1);
    }
  }

  /** A second application leaves the picture alone exactly when the table went in at offset 2048
      or less and in front of any SOS marker. */
  lemma SecondApplication(
    mem: Memory, size: nat, table: seq<byte>, out: seq<byte>, p: nat, mem': Memory, out': seq<byte>)
    requires |table| == DHT_SIZE && table[0] == 0xFF && table[1] == DHT
    requires !HasDht(mem) && SplitsAt(mem, size, p) && out == Picture(mem, size)[..p] + table + Picture(mem, size)[p..]
    requires HoldsAt(mem', 0, out) && Inserted(mem', |out|, table, out')
    ensures out' == out <==> p <= 2048 && NoMarkerBefore(mem, p, SOS)
  {
    assert Picture(mem', |out|) == out by {
      forall i | 0 <= i < |out|
        ensures mem'(i) == out[i]
      {
        assert mem'(0 + i) == out[i];
      }
    }
    if p <= 2048 && NoMarkerBefore(mem, p, SOS) {
      assert out[p] == table[0] && out[p + 1] == table[1];
      assert MarkerAt(mem', p, DHT);
      forall q | 0 <= q < p
        ensures !MarkerAt(mem', q, SOS)
      {
        SameMarkers(mem, size, table, out, p, mem', q, SOS);
        assert !MarkerAt(mem, q, SOS);
      }
      assert HasDht(mem');
    } else {
      StillWithout(mem, size, table, out, p, mem');
      assert |out'| != |out|;
    }
  }

  lemma StillWithout(mem: Memory, size: nat, table: seq<byte>, out: seq<byte>, p: nat, mem': Memory)
    requires |table| == DHT_SIZE && table[0] == 0xFF
    requires !HasDht(mem) && SplitsAt(mem, size, p) && out == Picture(mem, size)[..p] + table + Picture(mem, size)[p..]
    requires HoldsAt(mem', 0, out) && !(p <= 2048 && NoMarkerBefore(mem, p, SOS))
    ensures !HasDht(mem')
  {
    if HasDht(mem') {
      var r: nat :| r <= 2048 && MarkerAt(mem', r, DHT) && NoMarkerBefore(mem', r, SOS);
      if r < p {
        SameMarkers(mem, size, table, out, p, mem', r, DHT);
        forall q | 0 <= q < r
          ensures !MarkerAt(mem, q, SOS)
        {
          SameMarkers(mem, size, table, out, p, mem', q, SOS);
          assert !MarkerAt(mem', q, SOS);
        }
      } else {
        forall q | 0 <= q < p
          ensures !MarkerAt(mem, q, SOS)
        {
          SameMarkers(mem, size, table, out, p, mem', q, SOS);
          assert !MarkerAt(mem', q, SOS);
        }
      }
    }
  }
}
