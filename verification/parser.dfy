/**
  Recognising a greeting: the inverse of `greet`. A string is a greeting
  when it opens with one language's salutation and ends with `!`; what lies
  between is the name. Because no salutation opens another, each greeting
  names exactly one language and one name.
 */
module Parser {
  import opened Wrappers
  import opened Docsim

  /** `s` has the shape of a greeting in `lang`. */
  predicate Matches(s: string, lang: LanguageCode) {
    var p := Prefix(lang);
    |s| > |p| && s[..|p|] == p && s[|s| - 1] == '!'
  }

  /** The language and the name of a greeting, or `None` for any other string. */
  function Parse(s: string): (r: Option<(LanguageCode, string)>)
    ensures r.None? <==> forall lang :: !Matches(s, lang)
    ensures r.Some? ==> Matches(s, r.value.0)
    ensures r.Some? ==> r.value.1 == s[|Prefix(r.value.0)|..|s| - 1]
  {
    var found :=
      if Matches(s, EN) then Some(EN)
      else if Matches(s, DE) then Some(DE)
      else if Matches(s, ES) then Some(ES)
      else if Matches(s, FR) then Some(FR)
      else None;
    match found
    case None => None
    case Some(lang) => Some((lang, s[|Prefix(lang)|..|s| - 1]))
  }

  /** No two salutations agree on the shorter one's length. */
  lemma PrefixesDiffer(a: LanguageCode, b: LanguageCode)
    requires a != b
    ensures |Prefix(a)| <= |Prefix(b)| ==> Prefix(b)[..|Prefix(a)|] != Prefix(a)
  {
    if a == EN || b == EN {
      assert Prefix(EN)[1] == 'e' && Prefix(DE)[1] == 'a' && Prefix(ES)[1] == 'H' && Prefix(FR)[1] == 'o';
    } else {
      assert Prefix(DE)[0] == 'H' && Prefix(ES)[0] == '¡' && Prefix(FR)[0] == 'B';
    }
  }

  /** A string has the shape of a greeting in at most one language. */
  lemma MatchesUnique(s: string, a: LanguageCode, b: LanguageCode)
    requires Matches(s, a) && Matches(s, b)
    ensures a == b
  {
    if a != b {
      if |Prefix(a)| <= |Prefix(b)| {
        PrefixesDiffer(a, b);
      } else {
        PrefixesDiffer(b, a);
      }
    }
  }

  /** Parsing a greeting recovers its language and, verbatim, the stored name. */
  lemma ParseGreet(d: DocSim, lang: LanguageCode)
    ensures Parse(d.Greet(lang)) == Some((lang, d.name))
  {
    var s := d.Greet(lang);
    assert Matches(s, lang);
    var r := Parse(s);
    MatchesUnique(s, r.value.0, lang);
  }

  /** A string with the shape of a greeting in `lang` is the greeting of the name between salutation and `!`. */
  lemma MatchesGreeting(s: string, lang: LanguageCode)
    requires Matches(s, lang)
    ensures DocSim(s[|Prefix(lang)|..|s| - 1]).Greet(lang) == s
  {
    var p := Prefix(lang);
    var name := s[|p|..|s| - 1];
    assert s == s[..|p|] + name + [s[|s| - 1]];
  }

  /** Whatever parses is the greeting of the language and name it parses to. */
  lemma GreetParse(s: string)
    requires Parse(s).Some?
    ensures DocSim(Parse(s).value.1).Greet(Parse(s).value.0) == s
  {
    MatchesGreeting(s, Parse(s).value.0);
  }

  /** A greeting determines both the language and the object's name. */
  lemma GreetInjective(d: DocSim, a: LanguageCode, e: DocSim, b: LanguageCode)
    requires d.Greet(a) == e.Greet(b)
    ensures a == b && d == e
  {
    ParseGreet(d, a);
    ParseGreet(e, b);
  }
}
