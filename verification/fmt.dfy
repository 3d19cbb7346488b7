/**
  The part of `fmt::format` the greeter uses: one string argument substituted
  at an automatically numbered replacement field `{}`. Each greeting
  template holds exactly one `{}` and no other brace, so brace escapes
  (`{{`, `}}`), numbered or named fields and format specifications never
  arise and are not modelled: every character outside the first `{}` is
  copied verbatim.
 */
module Fmt {

  /** The template `t` has a replacement field `{}` starting at index `i`. */
  predicate FieldAt(t: string, i: int) {
    0 <= i && i + 1 < |t| && t[i] == '{' && t[i + 1] == '}'
  }

  predicate HasField(t: string) {
    exists i :: 0 <= i < |t| && FieldAt(t, i)
  }

  /** A template that does not open with a field has one exactly when its tail has one. */
  lemma FieldInTail(t: string)
    requires |t| > 0 && !FieldAt(t, 0)
    ensures HasField(t) <==> HasField(t[1..])
  {
    if HasField(t[1..]) {
      var i :| 0 <= i < |t[1..]| && FieldAt(t[1..], i);
      assert FieldAt(t, i + 1);
    }
    if HasField(t) {
      var i :| 0 <= i < |t| && FieldAt(t, i);
      assert t[1..][i - 1] == t[i] && t[1..][i] == t[i + 1];
      assert FieldAt(t[1..], i - 1);
    }
  }

  /**
    `fmt::format(t, arg)` for a template with one field: the first `{}` is
    replaced by `arg`. Without a field the template comes back unchanged
    (an unused argument is not an error).
   */
  function Format(t: string, arg: string): (r: string)
    ensures !HasField(t) ==> r == t
    ensures HasField(t) ==> |r| == |t| - 2 + |arg|
  {
    if |t| < 2 then
      t
    else if t[0] == '{' && t[1] == '}' then
      assert FieldAt(t, 0);
      arg + t[2..]
    else
      var r' := Format(t[1..], arg);
      FieldInTail(t);
      [t[0]] + r'
  }

  /**
    A template `p + "{}" + s` whose text before the field holds no brace is
    formatted by putting the argument in the field's place.
   */
  lemma {:induction false} FormatSubstitutes(p: string, s: string, arg: string)
    requires '{' !in p
    ensures Format(p + "{}" + s, arg) == p + arg + s
  {
    var t := p + "{}" + s;
    if p == [] {
      assert t == "{}" + s;
      assert t[2..] == s;
    } else {
      assert t[0] == p[0];
      assert t[1..] == p[1..] + "{}" + s;
      FormatSubstitutes(p[1..], s, arg);
      assert [p[0]] + (p[1..] + arg + s) == p + arg + s;
    }
  }
}
