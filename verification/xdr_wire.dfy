/** The bytes on the wire: how items and records look (sections 4.2, 4.5 and 4.10 of RFC 4506, section 11 of RFC 5531),
    and what the getters make of any bytes at all. */
module XdrWire {
  import opened Bits
  import opened Options
  import opened Xdr

  /** The number these bytes spell, most significant first. */
  function BeValue(b: seq<Byte>): nat {
    if b == [] then 0 else 256 * BeValue(b[..|b| - 1]) + b[|b| - 1]
  }

  lemma BeValue4(b: seq<Byte>)
    requires |b| == 4
    ensures BeValue(b) == FromBe32(b[0], b[1], b[2], b[3])
  {
    assert b[..3][..2] == b[..2] && b[..3][..2][..1] == b[..1] && b[..3][..2][..1][..0] == [];
    assert BeValue(b[..1]) == b[0];
    assert BeValue(b[..2]) == 256 * BeValue(b[..1]) + b[1] by {
      assert b[..2][..1] == b[..1];
    }
    assert BeValue(b[..3]) == 256 * BeValue(b[..2]) + b[2];
  }

  lemma BeValue8(a: seq<Byte>, b: seq<Byte>)
    requires |b| == 4
    ensures BeValue(a + b) == 0x1_0000_0000 * BeValue(a) + BeValue(b)
  {
    BeValue4(b);
    var s := a + b;
    assert s[..|s| - 1] == a + b[..3] && (a + b[..3])[..|a| + 2] == a + b[..2];
    assert (a + b[..2])[..|a| + 1] == a + b[..1] && (a + b[..1])[..|a|] == a;
    assert BeValue(a + b[..1]) == 256 * BeValue(a) + b[0];
    assert BeValue(a + b[..2]) == 256 * BeValue(a + b[..1]) + b[1];
    assert BeValue(a + b[..3]) == 256 * BeValue(a + b[..2]) + b[2];
  }

  lemma Be32Spells(v: Word)
    ensures |Be32(v)| == 4 && BeValue(Be32(v)) == v
  {
    BeValue4(Be32(v));
    Be32RoundTrip(v);
  }

  /** A word is its four bytes and a double word its eight, most significant first. */
  lemma NumbersOnWire(w: Word, h: Hyper)
    ensures |Encode(Int(w))| == 4 && BeValue(Encode(Int(w))) == w
    ensures |Encode(Long(h))| == 8 && BeValue(Encode(Long(h))) == h
  {
    Be32Spells(w);
    Be32Spells(h / U32);
    Be32Spells(h % U32);
    BeValue8(Be32(h / U32), Be32(h % U32));
  }

  /** Opaque data is its length as a word, its bytes, and zeros up to the next multiple of four. */
  lemma OpaqueOnWire(b: seq<Byte>)
    requires |b| < 0x1_0000_0000
    ensures
      var e := Encode(Opaque(b));
      && 4 + |b| <= |e| < 4 + |b| + 4 && |e| % 4 == 0
      && BeValue(e[..4]) == |b| && e[4..4 + |b|] == b
      && forall i :: 4 + |b| <= i < |e| ==> e[i] == 0
  {
    var e := Encode(Opaque(b));
    EncodeOpaque(b);
    EncodeAligned(Opaque(b));
    Be32Spells(|b|);
    assert e[..4] == Be32(|b|);
    assert e[4..4 + |b|] == b;
  }

  // ---- What the getters make of any bytes ----

  /** A word takes four bytes; with fewer left the getter fails and stays. */
  lemma WordFromWire(data: seq<Byte>, pos: nat)
    ensures if pos + 4 <= |data| then GetU32(data, pos) == (Some(BeValue(data[pos..pos + 4])), pos + 4)
            else GetU32(data, pos) == (None, pos)
  {
    if pos + 4 <= |data| {
      BeValue4(data[pos..pos + 4]);
    }
  }

  /** A double word takes eight bytes; with four to seven left the getter fails after the first four. */
  lemma LongFromWire(data: seq<Byte>, pos: nat)
    ensures GetU64(data, pos).1 == if pos + 8 <= |data| then pos + 8 else if pos + 4 <= |data| then pos + 4 else pos
    ensures GetU64(data, pos).0.Some? <==> pos + 8 <= |data|
    ensures pos + 8 <= |data| ==> GetU64(data, pos).0.value == BeValue(data[pos..pos + 8])
  {
    WordFromWire(data, pos);
    WordFromWire(data, pos + 4);
    if pos + 8 <= |data| {
      var a, b := data[pos..pos + 4], data[pos + 4..pos + 8];
      assert data[pos..pos + 8] == a + b;
      BeValue8(a, b);
      BeValue4(a);
      BeValue4(b);
      JoinValue(BeValue(a), BeValue(b));
    }
  }

  /** Opaque data takes its length word and as many bytes as that says; the padding is skipped without looking, even past
      the end. With too few bytes left the getter fails, after the length if that was there. */
  lemma OpaqueFromWire(data: seq<Byte>, pos: nat)
    ensures
      var (o, p) := GetBytes(data, pos);
      if pos + 4 > |data| then o.None? && p == pos
      else
        var n := BeValue(data[pos..pos + 4]);
        if pos + 4 + n > |data| then o.None? && p == pos + 4
        else o == Some(data[pos + 4..pos + 4 + n]) && pos + 4 + n <= p < pos + 8 + n && (p - pos) % 4 == 0
  {
    WordFromWire(data, pos);
    if pos + 4 <= |data| {
      PadAligns(BeValue(data[pos..pos + 4]));
    }
  }

  // ---- Records ----

  /** A record is a word with the top bit set, for the last fragment, and the length below it, and then the body. */
  lemma RecordOnWire(body: seq<Byte>)
    ensures
      var f := Frame(body);
      && |f| == 4 + |body| && f[4..] == body
      && BeValue(f[..4]) >= 0x8000_0000
      && (|body| < 0x8000_0000 ==> BeValue(f[..4]) == 0x8000_0000 + |body|)
  {
    var header := WithLastBit(|body| % U32);
    Be32Spells(header);
    assert Frame(body)[..4] == Be32(header);
    assert Frame(body)[4..] == body;
  }

  /** The TCP side ignores the top bit, takes as many bytes as the rest says, and fails when they are not all there. */
  lemma RecordFromWire(data: seq<Byte>)
    ensures
      if |data| < 4 then Unframe(data).None?
      else
        var n := BeValue(data[..4]);
        var len := if n >= 0x8000_0000 then n - 0x8000_0000 else n;
        Unframe(data) == if |data| < 4 + len then None else Some(data[4..4 + len])
  {
    if |data| >= 4 {
      BeValue4(data[..4]);
    }
  }
}
