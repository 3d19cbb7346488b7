/**
  The expectations of the greeter's unit test: an object built with the
  name "Tests" greets in each language with the literal the test compares
  against. The test file stores its Spanish literal differently from the
  greeter's source, which `SpanishAsWritten` and `SpanishExpected` set out.
 */
module DocsimTest {
  import Utf8
  import opened Docsim

  /** The object the test constructs. */
  const Tests := DocSim("Tests")

  lemma EnglishExpected()
    ensures Tests.Greet(EN) == "Hello, Tests!"
  {
    GreetEnglish(Tests);
  }

  lemma GermanExpected()
    ensures Tests.Greet(DE) == "Hallo Tests!"
  {
    GreetGerman(Tests);
  }

  lemma FrenchExpected()
    ensures Tests.Greet(FR) == "Bonjour Tests!"
  {
    GreetFrench(Tests);
  }

  /**
    The Spanish greeting against the intended literal: equal as text, and
    so byte for byte, starting with the two bytes 0xC2 0xA1 of the inverted
    exclamation mark.
   */
  lemma SpanishExpected()
    ensures Tests.Greet(ES) == "¡Hola Tests!"
    ensures Utf8.Encode(Tests.Greet(ES))[..2] == [0xC2, 0xA1]
  {
    var g := Tests.Greet(ES);
    assert g == ['¡'] + g[1..];
    Utf8.EncodeAppend(['¡'], g[1..]);
    assert Utf8.Encode(['¡']) == Utf8.EncodeChar('¡') + Utf8.Encode([]);
  }

  /** The Spanish greeting of an ASCII name: the inverted exclamation mark, then ASCII text. */
  lemma SpanishTailAscii(name: string)
    requires forall i :: 0 <= i < |name| ==> (name[i] as int) < 0x80
    ensures DocSim(name).Greet(ES) == ['¡'] + ("Hola " + name + "!")
    ensures forall i :: 0 <= i < |"Hola " + name + "!"| ==> (("Hola " + name + "!")[i] as int) < 0x80
  {
    var rest := "Hola " + name + "!";
    forall i | 0 <= i < |rest|
      ensures (rest[i] as int) < 0x80
    {
      if 5 <= i < 5 + |name| {
        assert rest[i] == name[i - 5];
      }
    }
  }

  /** The two UTF-8 bytes of the inverted exclamation mark, read as Latin-1, are A-circumflex and the mark itself. */
  lemma InvertedMarkAsLatin1()
    ensures Utf8.EncodeChar('¡') == [0xC2, 0xA1]
    ensures Utf8.Latin1(Utf8.EncodeChar('¡')) == ['Â', '¡']
  {
    assert Utf8.Latin1([0xC2, 0xA1]) == ['Â', '¡'];
  }

  /**
    Read one byte per character, the bytes of a Spanish greeting for an
    ASCII name start with A-circumflex and the inverted exclamation mark,
    the two characters whose code points are the bytes of the mark's UTF-8
    encoding.
   */
  lemma SpanishBytesAsLatin1(name: string)
    requires forall i :: 0 <= i < |name| ==> (name[i] as int) < 0x80
    ensures Utf8.Latin1(Utf8.Encode(DocSim(name).Greet(ES))) == ['Â', '¡'] + "Hola " + name + "!"
  {
    SpanishTailAscii(name);
    Utf8.Latin1AsciiTail('¡', "Hola " + name + "!");
    InvertedMarkAsLatin1();
  }

  /**
    For any name, the bytes of the Spanish greeting differ from the bytes of
    the text they spell when read one per character: that text opens with
    A-circumflex where the greeting opens with the inverted exclamation mark.
   */
  lemma SpanishBytesDiffer(name: string)
    ensures var g := DocSim(name).Greet(ES);
            Utf8.Encode(g) != Utf8.Encode(Utf8.Latin1(Utf8.Encode(g)))
  {
    var g := DocSim(name).Greet(ES);
    var t := Utf8.Latin1(Utf8.Encode(g));
    assert g == ['¡'] + g[1..];
    assert Utf8.Encode(g) == Utf8.EncodeChar('¡') + Utf8.Encode(g[1..]);
    InvertedMarkAsLatin1();
    assert t[0] == 'Â';
    if Utf8.Encode(g) == Utf8.Encode(t) {
      Utf8.EncodeInjective(g, t);
    }
  }

  /** The literal the test file holds: A-circumflex, the inverted exclamation mark, then "Hola Tests!". */
  const SpanishLiteralAsWritten: string := ['Â', '¡'] + "Hola Tests!"

  /**
    The test's Spanish literal is the greeting's bytes read back one byte per
    character (a UTF-8 text decoded as Latin-1 and stored again), so its
    bytes differ from the greeting's: the comparison cannot hold.
   */
  lemma SpanishAsWritten()
    ensures SpanishLiteralAsWritten == Utf8.Latin1(Utf8.Encode(Tests.Greet(ES)))
    ensures Utf8.Encode(Tests.Greet(ES)) != Utf8.Encode(SpanishLiteralAsWritten)
  {
    var name := Tests.name;
    assert ['Â', '¡'] + "Hola " + name + "!" == SpanishLiteralAsWritten;
    forall i | 0 <= i < |name|
      ensures (name[i] as int) < 0x80
    {
      assert i in {0, 1, 2, 3, 4};
    }
    SpanishBytesAsLatin1(name);
    SpanishBytesDiffer(name);
    assert Tests.Greet(ES) == DocSim(name).Greet(ES);
  }
}
