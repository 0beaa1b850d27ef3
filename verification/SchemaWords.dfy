/** The words of schemas are spelled differently. */
module SchemaWords {
  import opened JsonGrammar
  import opened Schemas
  import opened Wrappers

  lemma AsciiDiffers(x: string, y: string, i: nat)
    requires |x| != |y| || (i < |x| && x[i] != y[i] && x[i] as int < 0x80 && y[i] as int < 0x80)
    ensures Ascii(x) != Ascii(y)
  {
    if |x| == |y| {
      assert Ascii(x)[i] == x[i] as int && Ascii(y)[i] == y[i] as int;
    }
  }

  lemma WordsDiffer(j: Schemas.Key, k: Schemas.Key)
    requires j != k
    ensures |Word(j)| >= 2 && |Word(k)| >= 2
    ensures |Word(j)| != |Word(k)| || Word(j)[0] != Word(k)[0] || Word(j)[1] != Word(k)[1]
  {
  }

  lemma WordsAreAscii(k: Schemas.Key)
    ensures |Word(k)| >= 2 && Word(k)[0] as int < 0x80 && Word(k)[1] as int < 0x80
  {
  }

  lemma SpelledOnce()
    ensures forall j, k :: Spelled(j) == Spelled(k) ==> j == k
  {
    hide Ascii, Word;
    forall j, k | j != k ensures Spelled(j) != Spelled(k) {
      WordsDiffer(j, k);
      WordsAreAscii(j);
      WordsAreAscii(k);
      AsciiDiffers(Word(j), Word(k), if Word(j)[0] != Word(k)[0] then 0 else 1);
    }
  }

  function Named(k: Kind): (w: string)
    ensures |w| >= 1 && w[0] as int < 0x80
  {
    match k
    case NullKind => "null"
    case BooleanKind => "boolean"
    case StringKind => "string"
    case IntegerKind => "integer"
    case NumberKind => "number"
    case ArrayKind => "array"
    case ObjectKind => "object"
  }

  lemma NamesDiffer(j: Kind, k: Kind)
    requires j != k
    ensures |Named(j)| != |Named(k)| || Named(j)[0] != Named(k)[0]
  {
  }

  lemma NamedOnce(k: Kind)
    ensures KindOf(Ascii(Named(k))) == Some(k)
  {
    hide Ascii;
    forall j | j != k ensures Ascii(Named(j)) != Ascii(Named(k)) {
      NamesDiffer(j, k);
      AsciiDiffers(Named(j), Named(k), 0);
    }
    assert Named(NullKind) == "null" && Named(BooleanKind) == "boolean" && Named(StringKind) == "string";
    assert Named(IntegerKind) == "integer" && Named(NumberKind) == "number";
    assert Named(ArrayKind) == "array" && Named(ObjectKind) == "object";
  }
}
