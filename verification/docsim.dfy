/**
  The greeter of namespace `docsim`: the `LanguageCode` enumeration, the
  `DocSim` class holding a name, and its `greet` member, which substitutes
  the name into a language-specific template.
 */
module Docsim {
  import Fmt
  import Utf8

  /** The enumerators of `enum class LanguageCode`, in declaration order. */
  datatype LanguageCode = EN | DE | ES | FR

  /** `int`, the underlying type of an `enum class` that names none. */
  newtype int32 = x: int | -0x8000_0000 <= x < 0x8000_0000

  /** The underlying value of each enumerator: its position in the declaration. */
  function Ordinal(lang: LanguageCode): (v: int32)
    ensures 0 <= v < 4
  {
    match lang
    case EN => 0
    case DE => 1
    case ES => 2
    case FR => 3
  }

  /**
    The case of `greet`'s switch that an underlying value reaches. A scoped
    enumeration can hold any `int` (through a cast), and every value that no
    enumerator names reaches `default:`, which shares the `EN` case.
   */
  function Branch(v: int32): (lang: LanguageCode)
    ensures 0 <= v < 4 ==> Ordinal(lang) == v
    ensures forall named :: Ordinal(named) == v ==> lang == named
    ensures !(0 <= v < 4) ==> lang == EN
  {
    if v == 1 then DE
    else if v == 2 then ES
    else if v == 3 then FR
    else EN
  }

  /** The format string each case of the switch hands to `fmt::format`. */
  function Template(lang: LanguageCode): (t: string)
    ensures |t| >= 3 && Fmt.FieldAt(t, |t| - 3) && t[|t| - 1] == '!'
    ensures '{' !in t[..|t| - 3] && '}' !in t[..|t| - 3]
  {
    match lang
    case EN => "Hello, {}!"
    case DE => "Hallo {}!"
    case ES => "¡Hola {}!"
    case FR => "Bonjour {}!"
  }

  /** The salutation that precedes the name in each language. */
  function Prefix(lang: LanguageCode): (p: string)
    ensures '{' !in p && '}' !in p && '!' !in p
  {
    match lang
    case EN => "Hello, "
    case DE => "Hallo "
    case ES => "¡Hola "
    case FR => "Bonjour "
  }

  /** Each case's template is its salutation, then the field `{}`, then `!`. */
  lemma TemplateShape(lang: LanguageCode)
    ensures Template(lang) == Prefix(lang) + "{}" + "!"
  {
  }

  /** A `DocSim` object: the name given to its constructor, kept verbatim. */
  datatype DocSim = DocSim(name: string) {

    /**
      `greet(lang)`: the salutation of `lang`, the stored name, then `!`.
      The argument defaults to `EN`, as the declaration's does.
      `GreetIsFormat` shows this is what `fmt::format` makes of the case's
      template.
     */
    function Greet(lang: LanguageCode := EN): (r: string)
      ensures |r| == |Prefix(lang)| + |name| + 1
      ensures r[..|Prefix(lang)|] == Prefix(lang)
      ensures r[|Prefix(lang)|..|r| - 1] == name
      ensures r[|r| - 1] == '!'
    {
      Prefix(lang) + name + "!"
    }

    /** `greet` called with a raw enumeration value, `default:` included. */
    function GreetValue(v: int32): (r: string)
      ensures r in {Greet(EN), Greet(DE), Greet(ES), Greet(FR)}
      ensures !(0 <= v < 4) ==> r == Greet()
      ensures forall lang :: v == Ordinal(lang) ==> r == Greet(lang)
    {
      Greet(Branch(v))
    }

    /**
      One call of the `const` member `greet`: the object as it is after the
      call, and the string returned. The object comes back as it was by
      construction, as a `const` member cannot change it.
     */
    function Call(lang: LanguageCode): (after: (DocSim, string))
      ensures after.0 == this
      ensures |after.1| > |Prefix(lang)| && after.1[|Prefix(lang)|..|after.1| - 1] == name
    {
      (this, Greet(lang))
    }
  }

  /**
    A run of successive `greet` calls on one object, each made on the object
    the previous call left behind: the object at the end, and the strings
    returned, in call order.
   */
  function Session(d: DocSim, langs: seq<LanguageCode>): (out: (DocSim, seq<string>))
    ensures out.0 == d
    ensures |out.1| == |langs|
    ensures forall i :: 0 <= i < |langs| ==> out.1[i] == d.Greet(langs[i])
  {
    if langs == [] then
      (d, [])
    else
      var (next, first) := d.Call(langs[0]);
      var (last, rest) := Session(next, langs[1..]);
      (last, [first] + rest)
  }

  /** Each case of the switch returns `fmt::format` of its template with the stored name. */
  lemma GreetIsFormat(d: DocSim, lang: LanguageCode)
    ensures d.Greet(lang) == Fmt.Format(Template(lang), d.name)
  {
    TemplateShape(lang);
    Fmt.FormatSubstitutes(Prefix(lang), "!", d.name);
  }

  /** Repeated calls with the same language return the same string. */
  lemma SessionRepeats(d: DocSim, langs: seq<LanguageCode>, i: nat, j: nat)
    requires i < |langs| && j < |langs| && langs[i] == langs[j]
    ensures Session(d, langs).1[i] == Session(d, langs).1[j]
  {
  }

  /** Calling `greet` without an argument greets in English. */
  lemma GreetDefault(d: DocSim)
    ensures d.Greet() == d.Greet(EN)
    ensures d.Greet() == "Hello, " + d.name + "!"
  {
  }

  /** The greeting for each enumerator, word for word. */
  lemma GreetEnglish(d: DocSim)
    ensures d.Greet(EN) == "Hello, " + d.name + "!"
  {
  }

  lemma GreetGerman(d: DocSim)
    ensures d.Greet(DE) == "Hallo " + d.name + "!"
  {
  }

  lemma GreetSpanish(d: DocSim)
    ensures d.Greet(ES) == ['¡'] + "Hola " + d.name + "!"
  {
  }

  lemma GreetFrench(d: DocSim)
    ensures d.Greet(FR) == "Bonjour " + d.name + "!"
  {
  }

  /** The salutations' lengths in bytes; the inverted exclamation mark takes two. */
  lemma PrefixBytes(lang: LanguageCode)
    ensures |Utf8.Encode(Prefix(lang))| == match lang case EN => 7 case DE => 6 case ES => 7 case FR => 8
    ensures |Utf8.EncodeChar('¡')| == 2
  {
    var p := Prefix(lang);
    if lang == ES {
      assert p == ['¡'] + p[1..];
      Utf8.EncodeAppend(['¡'], p[1..]);
      assert |Utf8.EncodeChar('¡')| == 2;
      assert Utf8.Encode(['¡']) == Utf8.EncodeChar('¡') + Utf8.Encode([]);
      assert forall i :: 0 <= i < |p[1..]| ==> (p[1..][i] as int) < 0x80;
      Utf8.EncodeAscii(p[1..]);
    } else {
      assert forall i :: 0 <= i < |p| ==> (p[i] as int) < 0x80;
      Utf8.EncodeAscii(p);
    }
  }

  /**
    The bytes of a greeting, as `std::string` holds them: the salutation's
    UTF-8 bytes, the name's bytes, and the single byte of `!`.
   */
  lemma GreetBytes(d: DocSim, lang: LanguageCode)
    ensures Utf8.Encode(d.Greet(lang)) == Utf8.Encode(Prefix(lang)) + Utf8.Encode(d.name) + [0x21]
    ensures |Utf8.Encode(d.Greet(lang))|
         == |Utf8.Encode(d.name)| + match lang case EN => 8 case DE => 7 case ES => 8 case FR => 9
  {
    Utf8.EncodeAppend(Prefix(lang) + d.name, "!");
    Utf8.EncodeAppend(Prefix(lang), d.name);
    assert Utf8.Encode("!") == Utf8.EncodeChar('!') + Utf8.Encode([]);
    PrefixBytes(lang);
  }
}
