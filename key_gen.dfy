/** The dashboard's key-string generator: four segments of four characters
    from the 36-character alphabet A-Z0-9, joined with '-'. The random
    source `Math.floor(Math.random() * chars.length)` is replaced by a
    sequence of draws, one per character, in the order the two loops
    consume them; a source-produced draw always lies in [0, 36). */
module KeyGen {
  import opened JsBuiltins

  /** Character `k` of the alphabet: A..Z for 0..25, 0..9 for 26..35. */
  function AlphabetChar(k: int): (c: char)
    requires 0 <= k < 36
    ensures IsKeyChar(c) && AlphabetIndex(c) == k
  {
    if k < 26 then ('A' as int + k) as char else ('0' as int + (k - 26)) as char
  }

  /** generateRandomKey's `chars`: the letters A..Z, then the digits 0..9
      (AlphabetIsSourceLiteral spells it out). */
  function Alphabet(): (a: string)
    ensures |a| == 36
    ensures forall k :: 0 <= k < |a| ==> IsKeyChar(a[k])
  {
    seq(36, k requires 0 <= k < 36 => AlphabetChar(k))
  }
  const SegmentCount := 4
  const SegmentLength := 4
  const DrawCount := 16
  const KeyLength := 19
  /** The character between segments, and the separator string passed to join. */
  const Hyphen := '-'
  const Separator := [Hyphen]

  /** Draws as the random source can produce them: sixteen, each an index
      into the alphabet. */
  predicate ValidDraws(draws: seq<int>) {
    |draws| == DrawCount && forall i :: 0 <= i < |draws| ==> 0 <= draws[i] < |Alphabet()|
  }

  /** The characters `chars.charAt(d)` yields for the draws, in order. */
  function Spell(draws: seq<int>): (r: string)
    ensures |r| <= |draws|
  {
    if draws == [] then ""
    else Spell(draws[..|draws| - 1]) + CharAt(Alphabet(), draws[|draws| - 1])
  }

  /** The `i`-th segment spells draws 4i .. 4i+3. */
  function Segment(draws: seq<int>, i: nat): (r: string)
    requires i < SegmentCount && |draws| == DrawCount
    ensures |r| <= SegmentLength
  {
    Spell(draws[SegmentLength * i .. SegmentLength * i + SegmentLength])
  }

  function Segments(draws: seq<int>): seq<string>
    requires |draws| == DrawCount
  {
    [Segment(draws, 0), Segment(draws, 1), Segment(draws, 2), Segment(draws, 3)]
  }

  /** The key generateRandomKey returns for these draws. */
  function KeyOf(draws: seq<int>): (key: string)
    requires |draws| == DrawCount
    ensures |key| <= KeyLength
  {
    var parts := Segments(draws);
    var last := parts[1..][1..][1..];
    assert last == [parts[3]] && last[1..] == [];
    assert TotalLength(last) == |parts[3]|;
    assert TotalLength(parts[1..][1..]) == |parts[2]| + |parts[3]|;
    Join(parts, Separator)
  }

  /** Positions of the three hyphens in a 19-character key: segment i ends
      at (SegmentLength + |Separator|) * i + SegmentLength, for i = 0, 1, 2. */
  predicate IsSeparatorPosition(p: int) {
    p == 4 || p == 9 || p == 14
  }

  /** The format every generated key has: XXXX-XXXX-XXXX-XXXX over A-Z0-9. */
  predicate IsKeyFormat(k: string) {
    |k| == KeyLength &&
    forall p :: 0 <= p < |k| ==>
      if IsSeparatorPosition(p) then k[p] == Hyphen else k[p] in Alphabet()
  }

  /** generateRandomKey: the nested loops build each segment one character
      at a time and push it; the segments are then joined with '-'. */
  method GenerateRandomKey(draws: seq<int>) returns (key: string)
    requires |draws| == DrawCount
    ensures key == KeyOf(draws)
    ensures ValidDraws(draws) ==> IsKeyFormat(key)
  {
    var chars := Alphabet();
    var segments: seq<string> := [];
    for i := 0 to SegmentCount
      invariant segments == Segments(draws)[..i]
    {
      var segment := "";
      for j := 0 to SegmentLength
        invariant segment == Spell(draws[SegmentLength * i .. SegmentLength * i + j])
      {
        assert draws[SegmentLength * i .. SegmentLength * i + j + 1][..j] == draws[SegmentLength * i .. SegmentLength * i + j];
        segment := segment + CharAt(chars, draws[SegmentLength * i + j]);
      }
      segments := segments + [segment];
    }
    assert segments == Segments(draws);
    key := Join(segments, Separator);
    if ValidDraws(draws) {
      KeyFormat(draws);
    }
  }

  lemma AlphabetIsSourceLiteral()
    ensures Alphabet() == "ABCDEFGHIJKLMNOPQRSTUVWXYZ0123456789"
  {
    var lit := "ABCDEFGHIJKLMNOPQRSTUVWXYZ0123456789";
    assert forall k :: 0 <= k < |lit| ==>
      lit[k] as int == if k < 26 then 'A' as int + k else '0' as int + (k - 26);
    forall k | 0 <= k < 36 ensures Alphabet()[k] == lit[k] {
      assert Alphabet()[k] == AlphabetChar(k);
    }
  }

  /** The position of a character in the alphabet, or -1 when it is not
      one of A..Z, 0..9. */
  function AlphabetIndex(c: char): int {
    if 'A' <= c <= 'Z' then c as int - 'A' as int
    else if '0' <= c <= '9' then c as int - '0' as int + 26
    else -1
  }

  /** The alphabet's characters are exactly A..Z and 0..9. */
  predicate IsKeyChar(c: char) {
    'A' <= c <= 'Z' || '0' <= c <= '9'
  }

  lemma AlphabetIndexAt(k: int)
    requires 0 <= k < |Alphabet()|
    ensures AlphabetIndex(Alphabet()[k]) == k
  {
  }

  /** AlphabetIndex inverts indexing into the alphabet, and membership in
      the alphabet is the range check IsKeyChar. */
  lemma AlphabetMember(c: char)
    ensures c in Alphabet() <==> IsKeyChar(c)
    ensures c in Alphabet() <==> 0 <= AlphabetIndex(c) < |Alphabet()| && Alphabet()[AlphabetIndex(c)] == c
  {
    if c in Alphabet() {
      var k :| 0 <= k < |Alphabet()| && Alphabet()[k] == c;
      AlphabetIndexAt(k);
    }
    if IsKeyChar(c) {
      assert Alphabet()[AlphabetIndex(c)] == c;
    }
  }

  /** No character occurs twice, and '-' is not one of them. */
  lemma AlphabetDistinct()
    ensures forall i, j :: 0 <= i < j < |Alphabet()| ==> Alphabet()[i] != Alphabet()[j]
    ensures Hyphen !in Alphabet()
  {
    AlphabetMember(Hyphen);
    forall i, j | 0 <= i < j < |Alphabet()| ensures Alphabet()[i] != Alphabet()[j] {
      AlphabetIndexAt(i);
      AlphabetIndexAt(j);
    }
  }

  /** The key format in terms of character ranges: hyphens at 4, 9 and 14,
      and A..Z or 0..9 everywhere else. */
  lemma KeyFormatByChars(k: string)
    ensures IsKeyFormat(k) <==> (|k| == KeyLength &&
      forall p :: 0 <= p < |k| ==> if IsSeparatorPosition(p) then k[p] == Hyphen else IsKeyChar(k[p]))
  {
    forall p | 0 <= p < |k| ensures k[p] in Alphabet() <==> IsKeyChar(k[p]) {
      AlphabetMember(k[p]);
    }
  }

  /** The right-to-left half of KeyFormatByChars, kept as its own lemma
      because its precondition is cheap to check on a string literal. */
  lemma KeyChars(k: string)
    requires |k| == KeyLength
    requires forall p :: 0 <= p < KeyLength ==>
      if IsSeparatorPosition(p) then k[p] == Hyphen else IsKeyChar(k[p])
    ensures IsKeyFormat(k)
  {
    KeyFormatByChars(k);
  }

  /** A draw outside the alphabet makes charAt contribute nothing, so the
      spelling has one character per draw exactly when every draw is in
      range. */
  lemma {:induction false} SpellLength(draws: seq<int>)
    ensures |Spell(draws)| <= |draws|
    ensures |Spell(draws)| == |draws| <==> forall i :: 0 <= i < |draws| ==> 0 <= draws[i] < |Alphabet()|
  {
    if draws != [] {
      var init := draws[..|draws| - 1];
      SpellLength(init);
      assert forall i :: 0 <= i < |init| ==> init[i] == draws[i];
    }
  }

  /** With every draw in range, character `i` of the spelling is the
      alphabet's character at draw `i`. */
  lemma {:induction false} SpellAt(draws: seq<int>)
    requires forall i :: 0 <= i < |draws| ==> 0 <= draws[i] < |Alphabet()|
    ensures |Spell(draws)| == |draws|
    ensures forall i :: 0 <= i < |draws| ==> Spell(draws)[i] == Alphabet()[draws[i]]
  {
    if draws != [] {
      var n := |draws|;
      var init := draws[..n - 1];
      assert forall i :: 0 <= i < |init| ==> init[i] == draws[i];
      SpellAt(init);
      var c := CharAt(Alphabet(), draws[n - 1]);
      assert Spell(draws) == Spell(init) + c;
      assert c == [Alphabet()[draws[n - 1]]];
    }
  }

  /** The key is the four segments with a hyphen between neighbours. */
  lemma KeyOfSegments(draws: seq<int>)
    requires |draws| == DrawCount
    ensures KeyOf(draws) ==
      Segment(draws, 0) + Separator + Segment(draws, 1) + Separator + Segment(draws, 2) + Separator + Segment(draws, 3)
  {
    JoinFour(Segment(draws, 0), Segment(draws, 1), Segment(draws, 2), Segment(draws, 3), Separator);
  }

  /** With valid draws, segment `i` spells draws 4i .. 4i+3. */
  lemma SegmentSpelling(draws: seq<int>, i: nat)
    requires ValidDraws(draws) && i < SegmentCount
    ensures |Segment(draws, i)| == SegmentLength
    ensures forall j :: 0 <= j < SegmentLength ==> Segment(draws, i)[j] == Alphabet()[draws[SegmentLength * i + j]]
  {
    var part := draws[SegmentLength * i .. SegmentLength * i + SegmentLength];
    assert forall j :: 0 <= j < SegmentLength ==> part[j] == draws[SegmentLength * i + j];
    SpellAt(part);
  }

  /** Where each character of four four-character pieces joined with '-'
      comes from; 5 is SegmentLength + |Separator|, the stride from one
      segment to the next. */
  lemma JoinedAt(s0: string, s1: string, s2: string, s3: string, p: int)
    requires |s0| == |s1| == |s2| == |s3| == SegmentLength && 0 <= p < KeyLength
    ensures var key := s0 + Separator + s1 + Separator + s2 + Separator + s3;
      |key| == KeyLength &&
      key[p] == if IsSeparatorPosition(p) then Hyphen else [s0, s1, s2, s3][p / 5][p % 5]
  {
    var key := s0 + Separator + s1 + Separator + s2 + Separator + s3;
    if p < 5 {
      assert key[p] == (s0 + Separator)[p];
    } else if p < 10 {
      assert key[p] == (s1 + Separator)[p - 5];
    } else if p < 15 {
      assert key[p] == (s2 + Separator)[p - 10];
    } else {
      assert key[p] == s3[p - 15];
    }
  }

  /** Character `p` of a key made from valid draws: a hyphen at 4, 9 and
      14, and everywhere else the alphabet character of draw p - p / 5. */
  lemma KeyAt(draws: seq<int>, p: int)
    requires ValidDraws(draws) && 0 <= p < KeyLength
    ensures |KeyOf(draws)| == KeyLength
    ensures KeyOf(draws)[p] ==
      if IsSeparatorPosition(p) then Hyphen else Alphabet()[draws[p - p / 5]]
  {
    KeyOfSegments(draws);
    var s := Segments(draws);
    SegmentSpelling(draws, 0);
    SegmentSpelling(draws, 1);
    SegmentSpelling(draws, 2);
    SegmentSpelling(draws, 3);
    JoinedAt(s[0], s[1], s[2], s[3], p);
    if !IsSeparatorPosition(p) {
      var i, j := p / 5, p % 5;
      assert p - p / 5 == SegmentLength * i + j;
      SegmentSpelling(draws, i);
    }
  }

  /** A key generated from valid draws has the XXXX-XXXX-XXXX-XXXX format,
      its hyphens are exactly those at 4, 9 and 14, and it is made of four
      segments of four alphabet characters. */
  lemma KeyFormat(draws: seq<int>)
    requires ValidDraws(draws)
    ensures IsKeyFormat(KeyOf(draws))
    ensures forall p :: 0 <= p < KeyLength ==> (KeyOf(draws)[p] == Hyphen <==> IsSeparatorPosition(p))
    ensures forall i :: 0 <= i < SegmentCount ==>
      |Segment(draws, i)| == SegmentLength &&
      forall j :: 0 <= j < SegmentLength ==> Segment(draws, i)[j] in Alphabet()
  {
    AlphabetDistinct();
    KeyAt(draws, 0);
    forall p | 0 <= p < KeyLength
      ensures |KeyOf(draws)| == KeyLength
      ensures if IsSeparatorPosition(p) then KeyOf(draws)[p] == Hyphen else KeyOf(draws)[p] in Alphabet()
    {
      KeyAt(draws, p);
    }
    forall i | 0 <= i < SegmentCount
      ensures |Segment(draws, i)| == SegmentLength
      ensures forall j :: 0 <= j < SegmentLength ==> Segment(draws, i)[j] in Alphabet()
    {
      SegmentSpelling(draws, i);
    }
  }

  /** Sixteen draws give a 19-character key exactly when all of them are in
      range; an out-of-range draw shortens the key. */
  lemma KeyLengthIff(draws: seq<int>)
    requires |draws| == DrawCount
    ensures |KeyOf(draws)| == KeyLength <==> ValidDraws(draws)
  {
    KeyOfSegments(draws);
    SegmentLengthIff(draws, 0);
    SegmentLengthIff(draws, 1);
    SegmentLengthIff(draws, 2);
    SegmentLengthIff(draws, 3);
  }

  /** Segment `i` has four characters exactly when its four draws are in
      range. */
  lemma SegmentLengthIff(draws: seq<int>, i: nat)
    requires |draws| == DrawCount && i < SegmentCount
    ensures |Segment(draws, i)| == SegmentLength <==>
      forall j :: SegmentLength * i <= j < SegmentLength * i + SegmentLength ==> 0 <= draws[j] < |Alphabet()|
  {
    var part := draws[SegmentLength * i .. SegmentLength * i + SegmentLength];
    assert forall j :: 0 <= j < SegmentLength ==> part[j] == draws[SegmentLength * i + j];
    SpellLength(part);
  }

  /** Reads the draws back off a key: the alphabet index of each
      non-hyphen character. */
  function DecodeKey(k: string): (draws: seq<int>)
    requires |k| == KeyLength
    ensures |draws| == DrawCount
  {
    seq(DrawCount, i requires 0 <= i < DrawCount => AlphabetIndex(k[i + i / 4]))
  }

  /** Draw `i` lands at key position i + i / 4, and that position maps
      back to `i`. */
  lemma DrawPosition(i: int)
    requires 0 <= i < DrawCount
    ensures var p := i + i / 4;
      0 <= p < KeyLength && !IsSeparatorPosition(p) && p - p / 5 == i
  {
    if i < 4 { } else if i < 8 { } else if i < 12 { } else { }
  }

  lemma PositionDraw(p: int)
    requires 0 <= p < KeyLength && !IsSeparatorPosition(p)
    ensures var i := p - p / 5;
      0 <= i < DrawCount && i + i / 4 == p
  {
    if p < 5 { } else if p < 10 { } else if p < 15 { } else { }
  }

  lemma DecodeEncodeAt(draws: seq<int>, i: int)
    requires ValidDraws(draws) && 0 <= i < DrawCount
    ensures |KeyOf(draws)| == KeyLength && DecodeKey(KeyOf(draws))[i] == draws[i]
  {
    DrawPosition(i);
    var p := i + i / 4;
    KeyAt(draws, p);
    DecodeChar(KeyOf(draws), i, draws[i]);
  }

  lemma DecodeChar(k: string, i: int, d: int)
    requires |k| == KeyLength && 0 <= i < DrawCount && 0 <= d < |Alphabet()|
    requires k[i + i / 4] == Alphabet()[d]
    ensures DecodeKey(k)[i] == d
  {
    AlphabetIndexAt(d);
  }

  /** Decoding a generated key recovers the draws. */
  lemma DecodeEncode(draws: seq<int>)
    requires ValidDraws(draws)
    ensures |KeyOf(draws)| == KeyLength && DecodeKey(KeyOf(draws)) == draws
  {
    DecodeEncodeAt(draws, 0);
    forall i | 0 <= i < DrawCount
      ensures DecodeKey(KeyOf(draws))[i] == draws[i]
    {
      DecodeEncodeAt(draws, i);
    }
  }

  /** Decoding a string of the key format gives valid draws, each the
      alphabet index of its character. */
  lemma DecodeInRange(k: string)
    requires IsKeyFormat(k)
    ensures ValidDraws(DecodeKey(k))
    ensures forall i :: 0 <= i < DrawCount ==> Alphabet()[DecodeKey(k)[i]] == k[i + i / 4]
  {
    forall i | 0 <= i < DrawCount
      ensures 0 <= DecodeKey(k)[i] < |Alphabet()| && Alphabet()[DecodeKey(k)[i]] == k[i + i / 4]
    {
      DecodeAt(k, i);
    }
  }

  lemma DecodeAt(k: string, i: int)
    requires IsKeyFormat(k) && 0 <= i < DrawCount
    ensures 0 <= DecodeKey(k)[i] < |Alphabet()| && Alphabet()[DecodeKey(k)[i]] == k[i + i / 4]
  {
    DrawPosition(i);
    var p := i + i / 4;
    assert k[p] in Alphabet();
    AlphabetMember(k[p]);
  }

  lemma EncodeDecodeAt(k: string, p: int)
    requires IsKeyFormat(k) && 0 <= p < KeyLength
    ensures ValidDraws(DecodeKey(k))
    ensures |KeyOf(DecodeKey(k))| == KeyLength && KeyOf(DecodeKey(k))[p] == k[p]
  {
    DecodeInRange(k);
    KeyAt(DecodeKey(k), p);
    if !IsSeparatorPosition(p) {
      PositionDraw(p);
    }
  }

  /** Every string of the key format is generated, from the draws it
      decodes to: the format describes the generator's outputs exactly. */
  lemma EncodeDecode(k: string)
    requires IsKeyFormat(k)
    ensures ValidDraws(DecodeKey(k)) && KeyOf(DecodeKey(k)) == k
  {
    EncodeDecodeAt(k, 0);
    forall p | 0 <= p < KeyLength
      ensures KeyOf(DecodeKey(k))[p] == k[p]
    {
      EncodeDecodeAt(k, p);
    }
  }

  /** Distinct valid draws give distinct keys. */
  lemma KeyOfInjective(d1: seq<int>, d2: seq<int>)
    requires ValidDraws(d1) && ValidDraws(d2) && KeyOf(d1) == KeyOf(d2)
    ensures d1 == d2
  {
    DecodeEncode(d1);
    DecodeEncode(d2);
  }
}
