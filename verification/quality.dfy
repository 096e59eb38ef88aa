/** Sanger FASTQ (Phred+33) quality strings: `convert_to_ascii_quality` and
    `convert_from_ascii_quality`. Both look scores and characters up in a
    table of the 50 characters `!` .. `R`; anything outside the table is a
    `KeyError` in the source and `None` here. */
module Quality {
  import opened Results

  /** The encoding table: score `i` is written as `Alphabet[i]`. The
      50 characters run from `!` to `R`, written here in five runs of ten. */
  const Alphabet: string :=
    "!\"#$%&'()*"
    + "+,-./01234"
    + "56789:;<=>"
    + "?@ABCDEFGH"
    + "IJKLMNOPQR"

  /** The table is the Phred+33 offset: character code 33 + score, for the
      scores 0..49. */
  lemma AlphabetIsOffset()
    ensures |Alphabet| == 50
    ensures forall i :: 0 <= i < 50 ==> Alphabet[i] as int == 33 + i
  {
    var c0 := "!\"#$%&'()*";
    forall i | 0 <= i < 10 ensures c0[i] as int == 33 + i { }
    var c1 := "+,-./01234";
    forall i | 0 <= i < 10 ensures c1[i] as int == 43 + i { }
    var c2 := "56789:;<=>";
    forall i | 0 <= i < 10 ensures c2[i] as int == 53 + i { }
    var c3 := "?@ABCDEFGH";
    forall i | 0 <= i < 10 ensures c3[i] as int == 63 + i { }
    var c4 := "IJKLMNOPQR";
    forall i | 0 <= i < 10 ensures c4[i] as int == 73 + i { }
    assert Alphabet == c0 + c1 + c2 + c3 + c4;
  }

  /** A character the decoding table knows. */
  predicate InTable(c: char)
  {
    '!' <= c <= 'R'
  }

  predicate ValidScore(x: int)
  {
    0 <= x < 50
  }

  /** The table entry for one score. */
  function EncodeScore(x: int): (c: char)
    requires ValidScore(x)
    ensures c as int == 33 + x
  {
    AlphabetIsOffset();
    Alphabet[x]
  }

  /** The table lookup for one character: the score written as `c`, or
      `None` if `c` is not in the table. */
  function DecodeChar(c: char): (r: Option<int>)
    ensures r.Some? <==> c in Alphabet
    ensures r.Some? <==> InTable(c)
    ensures r.Some? ==> ValidScore(r.value) && Alphabet[r.value] == c && r.value == c as int - 33
  {
    AlphabetIsOffset();
    if InTable(c) then
      var x := c as int - 33;
      assert Alphabet[x] == c;
      Some(x)
    else
      assert c !in Alphabet by {
        forall i | 0 <= i < |Alphabet|
          ensures Alphabet[i] != c
        {
          assert Alphabet[i] as int == 33 + i;
        }
      }
      None
  }

  /** `convert_to_ascii_quality`. */
  function ToAscii(scores: seq<int>): (r: Option<string>)
    ensures r.Some? <==> forall i :: 0 <= i < |scores| ==> ValidScore(scores[i])
    ensures r.Some? ==> |r.value| == |scores|
    ensures r.Some? ==> forall i :: 0 <= i < |scores| ==> r.value[i] as int == 33 + scores[i]
  {
    if |scores| == 0 then Some("")
    else if !ValidScore(scores[0]) then None
    else
      match ToAscii(scores[1..])
      case None => None
      case Some(rest) => Some([EncodeScore(scores[0])] + rest)
  }

  /** `convert_from_ascii_quality`. */
  function FromAscii(s: string): (r: Option<seq<int>>)
    ensures r.Some? <==> forall i :: 0 <= i < |s| ==> InTable(s[i])
    ensures r.Some? ==> |r.value| == |s|
    ensures r.Some? ==> forall i :: 0 <= i < |s| ==> ValidScore(r.value[i]) && r.value[i] == s[i] as int - 33
  {
    if |s| == 0 then Some([])
    else
      match DecodeChar(s[0])
      case None => None
      case Some(x) =>
        match FromAscii(s[1..])
        case None => None
        case Some(rest) => Some([x] + rest)
  }

  /** Decoding an encoded score list gives the scores back. */
  lemma {:induction false} DecodeEncode(scores: seq<int>)
    requires forall i :: 0 <= i < |scores| ==> ValidScore(scores[i])
    ensures ToAscii(scores).Some?
    ensures FromAscii(ToAscii(scores).value) == Some(scores)
  {
    var s := ToAscii(scores).value;
    assert forall i :: 0 <= i < |s| ==> InTable(s[i]);
    var back := FromAscii(s).value;
    assert |back| == |scores|;
    assert forall i :: 0 <= i < |back| ==> back[i] == scores[i];
    assert back == scores;
  }

  /** Encoding a decoded quality string gives the string back. */
  lemma {:induction false} EncodeDecode(s: string)
    requires forall i :: 0 <= i < |s| ==> InTable(s[i])
    ensures FromAscii(s).Some?
    ensures ToAscii(FromAscii(s).value) == Some(s)
  {
    var scores := FromAscii(s).value;
    var back := ToAscii(scores).value;
    assert |back| == |s|;
    forall i | 0 <= i < |s|
      ensures back[i] == s[i]
    {
      assert back[i] as int == s[i] as int;
    }
    assert back == s;
  }
}
