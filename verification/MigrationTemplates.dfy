/**
 * Replacement fields: what the gate makes of a `.format` or `%` template, what Python makes of it, and when
 * the two agree.
 */
module MigrationTemplates {
  import opened Outcomes

  /** Stands for a value that cannot be read; an identifier, so that the SQL around it still reads as SQL. */
  const UNKNOWN := " __X__ "

  // ----- the gate's fields -----------------------------------------------------------------------------------

  predicate NameChar(c: char) {
    'A' <= c <= 'Z' || 'a' <= c <= 'z' || '0' <= c <= '9' || c == '_'
  }

  predicate Digit(c: char) {
    '0' <= c <= '9'
  }

  predicate Flag(c: char) {
    c in "-#0 +"
  }

  function SpanOf(s: string, keep: char -> bool): (n: nat)
    ensures n <= |s|
  {
    if s == "" || !keep(s[0]) then 0 else 1 + SpanOf(s[1..], keep)
  }

  predicate NotBrace(c: char) {
    c != '{' && c != '}'
  }

  /** A replacement field at the head of a template: its name, and how much it covers. */
  datatype Field = Field(name: string, width: nat)

  /** `{name...}` with no brace inside. */
  function BraceField(s: string): (f: Option<Field>)
    ensures f.Some? ==> 0 < f.value.width <= |s|
  {
    if s == "" || s[0] != '{' then None
    else
      var inside := SpanOf(s[1..], NotBrace);
      if 1 + inside < |s| && s[1 + inside] == '}' then
        Some(Field(s[1..1 + SpanOf(s[1..1 + inside], NameChar)], inside + 2))
      else None
  }

  function FractionWidth(s: string): (n: nat)
    ensures n <= |s|
  {
    if s != "" && s[0] == '.' && SpanOf(s[1..], Digit) > 0 then 1 + SpanOf(s[1..], Digit) else 0
  }

  /** How far flags, width and precision reach. */
  function SpecificationWidth(s: string): (n: nat)
    ensures n <= |s|
  {
    var b := SpanOf(s, Flag);
    var c := b + SpanOf(s[b..], Digit);
    c + FractionWidth(s[c..])
  }

  /** `%(name)` or `%`, flags, width, precision and a conversion among `sdrif`. */
  function PercentField(s: string): (f: Option<Field>)
    ensures f.Some? ==> 0 < f.value.width <= |s|
  {
    if s == "" || s[0] != '%' then None
    else
      var word := if |s| > 1 && s[1] == '(' then SpanOf(s[2..], NameChar) else 0;
      var named := word > 0 && 2 + word < |s| && s[2 + word] == ')';
      var a := if named then 3 + word else 1;
      var d := a + SpecificationWidth(s[a..]);
      if d < |s| && s[d] in "sdrif" then Some(Field(if named then s[2..2 + word] else "", d + 1)) else None
  }

  datatype Style = Braces | Percents

  predicate Decimal(s: string) {
    s != "" && forall i :: 0 <= i < |s| ==> Digit(s[i])
  }

  function DecimalValue(s: string): nat
    requires forall i :: 0 <= i < |s| ==> Digit(s[i])
  {
    if s == "" then 0
    else
      assert Digit(s[|s| - 1]);
      10 * DecimalValue(s[..|s| - 1]) + (s[|s| - 1] as int - '0' as int)
  }

  /** The template with each field swapped for the value it takes; `next` counts automatic fields. */
  function Filled(template: string, style: Style, positional: seq<string>, named: map<string, string>, next: nat)
    : string
    decreases |template|
  {
    if template == "" then ""
    else match (if style.Braces? then BraceField(template) else PercentField(template))
      case None => template[..1] + Filled(template[1..], style, positional, named, next)
      case Some(Field(name, width)) =>
        var rest := template[width..];
        if Decimal(name) then
          (if DecimalValue(name) < |positional| then positional[DecimalValue(name)] else UNKNOWN)
          + Filled(rest, style, positional, named, next)
        else if name != "" then
          (if name in named then named[name] else UNKNOWN) + Filled(rest, style, positional, named, next)
        else
          (if next < |positional| then positional[next] else UNKNOWN)
          + Filled(rest, style, positional, named, next + 1)
  }

  // ----- Python's templates ------------------------------------------------------------------------------------

  /** Automatic fields `{}` and numbered fields `{0}` do not mix. */
  datatype Numbering = NotYet | Automatic(next: nat) | Numbered

  function Prepended(head: string, rest: Option<string>): Option<string> {
    match rest
    case None => None
    case Some(text) => Some(head + text)
  }

  predicate Identifier(s: string) {
    s != "" && !Digit(s[0]) && forall i :: 0 <= i < |s| ==> NameChar(s[i])
  }

  function IndexOf(s: string, c: char): (n: nat)
    ensures n <= |s| && (forall i :: 0 <= i < n ==> s[i] != c) && (n < |s| ==> s[n] == c)
  {
    if s == "" || s[0] == c then 0 else 1 + IndexOf(s[1..], c)
  }

  /**
   * `str.format` over strings: a doubled brace is the brace, a field is empty, a number or a name. Nothing when it
   * raises, and nothing for a conversion, a specification or an attribute.
   */
  function Formatted(t: string, positional: seq<string>, named: map<string, string>, numbering: Numbering): Option<string>
    decreases |t|
  {
    if t == "" then Some("")
    else if t[0] == '}' then
      if |t| > 1 && t[1] == '}' then Prepended("}", Formatted(t[2..], positional, named, numbering)) else None
    else if t[0] != '{' then Prepended(t[..1], Formatted(t[1..], positional, named, numbering))
    else if |t| > 1 && t[1] == '{' then Prepended("{", Formatted(t[2..], positional, named, numbering))
    else
      var end := IndexOf(t, '}');
      if end == |t| then None
      else
        var field, rest := t[1..end], t[end + 1..];
        if field == "" then
          var next := if numbering.Automatic? then numbering.next else 0;
          if numbering.Numbered? || next >= |positional| then None
          else Prepended(positional[next], Formatted(rest, positional, named, Automatic(next + 1)))
        else if Decimal(field) then
          if numbering.Automatic? || DecimalValue(field) >= |positional| then None
          else Prepended(positional[DecimalValue(field)], Formatted(rest, positional, named, Numbered))
        else if Identifier(field) && field in named then
          Prepended(named[field], Formatted(rest, positional, named, numbering))
        else None
  }

  /**
   * The `%` operator over strings: a doubled mark is the mark, `%s` takes the next value, `%(name)s` a named one,
   * and no value may be left over. Nothing when it raises, and nothing for any other conversion.
   */
  function PercentFormatted(t: string, positional: seq<string>, named: map<string, string>, next: nat): Option<string>
    decreases |t|
  {
    if t == "" then if next == |positional| then Some("") else None
    else if t[0] != '%' then Prepended(t[..1], PercentFormatted(t[1..], positional, named, next))
    else if |t| == 1 then None
    else if t[1] == '%' then Prepended("%", PercentFormatted(t[2..], positional, named, next))
    else if t[1] == 's' then
      if next < |positional| then Prepended(positional[next], PercentFormatted(t[2..], positional, named, next + 1)) else None
    else if t[1] == '(' then
      var end := IndexOf(t, ')');
      if end + 1 < |t| && t[end + 1] == 's' && Identifier(t[2..end]) && t[2..end] in named then
        Prepended(named[t[2..end]], PercentFormatted(t[end + 2..], positional, named, next))
      else None
    else None
  }

  /** Two marks stand next to each other. */
  predicate Doubled(t: string, mark: char) {
    exists i :: 0 <= i < |t| - 1 && t[i] == mark && t[i + 1] == mark
  }

  // ----- where the two agree ---------------------------------------------------------------------------------

  lemma {:induction false} SpanOfAll(s: string, n: nat, keep: char -> bool)
    requires n <= |s| && forall i :: 0 <= i < n ==> keep(s[i])
    requires n < |s| ==> !keep(s[n])
    ensures SpanOf(s, keep) == n
  {
    if n > 0 {
      SpanOfAll(s[1..], n - 1, keep);
    }
  }

  lemma IdentifierIsNoNumber(s: string)
    requires Identifier(s)
    ensures !Decimal(s) && s != ""
  {
    assert !Digit(s[0]);
  }

  /** A field that holds only a name, or nothing. */
  lemma BraceFieldIs(s: string, name: string, rest: string)
    requires s == "{" + name + "}" + rest && forall i :: 0 <= i < |name| ==> NameChar(name[i])
    ensures BraceField(s) == Some(Field(name, |name| + 2)) && s[|name| + 2..] == rest
  {
    forall i | 0 <= i < |name|
      ensures NotBrace(s[1..][i]) && s[1..1 + |name|][i] == name[i]
    {
      assert s[1..][i] == name[i] && NameChar(name[i]);
    }
    SpanOfAll(s[1..], |name|, NotBrace);
    SpanOfAll(s[1..1 + |name|], |name|, NameChar);
    assert s[1..1 + |name|] == name;
  }

  lemma UndoubledRest(t: string, mark: char, n: nat)
    requires n <= |t|
    ensures Doubled(t[n..], mark) ==> Doubled(t, mark)
  {
    if Doubled(t[n..], mark) {
      var i :| 0 <= i < |t[n..]| - 1 && t[n..][i] == mark && t[n..][i + 1] == mark;
      assert t[n + i] == mark && t[n + i + 1] == mark;
    }
  }

  function NextOf(numbering: Numbering): nat {
    if numbering.Automatic? then numbering.next else 0
  }

  function HeadField(t: string, style: Style): Option<Field> {
    if style.Braces? then BraceField(t) else PercentField(t)
  }

  lemma FilledPlain(t: string, style: Style, positional: seq<string>, named: map<string, string>, next: nat)
    requires t != "" && HeadField(t, style).None?
    ensures Filled(t, style, positional, named, next) == t[..1] + Filled(t[1..], style, positional, named, next)
  {
    hide BraceField, PercentField;
  }

  lemma FilledAutomatic(
    t: string, style: Style, width: nat, positional: seq<string>, named: map<string, string>, next: nat)
    requires 0 < width <= |t| && HeadField(t, style) == Some(Field("", width)) && next < |positional|
    ensures Filled(t, style, positional, named, next)
            == positional[next] + Filled(t[width..], style, positional, named, next + 1)
  {
    hide BraceField, PercentField;
  }

  lemma FilledNumbered(
    t: string, style: Style, field: Field, positional: seq<string>, named: map<string, string>, next: nat)
    requires field.width <= |t| && HeadField(t, style) == Some(field)
    requires Decimal(field.name) && DecimalValue(field.name) < |positional|
    ensures Filled(t, style, positional, named, next)
            == positional[DecimalValue(field.name)] + Filled(t[field.width..], style, positional, named, next)
  {
    hide BraceField, PercentField, DecimalValue;
  }

  lemma FilledNamed(
    t: string, style: Style, field: Field, positional: seq<string>, named: map<string, string>, next: nat)
    requires field.width <= |t| && HeadField(t, style) == Some(field)
    requires Identifier(field.name) && field.name in named
    ensures Filled(t, style, positional, named, next)
            == named[field.name] + Filled(t[field.width..], style, positional, named, next)
  {
    hide BraceField, PercentField, DecimalValue;
    IdentifierIsNoNumber(field.name);
  }

  /** A `.format` template that doubles no brace: the gate fills it in as Python does. */
  lemma {:induction false} UndoubledBracesAreRead(
    t: string, positional: seq<string>, named: map<string, string>, numbering: Numbering)
    requires !Doubled(t, '{') && !Doubled(t, '}')
    requires Formatted(t, positional, named, numbering).Some?
    ensures Filled(t, Braces, positional, named, NextOf(numbering))
            == Formatted(t, positional, named, numbering).value
    decreases |t|
  {
    hide Filled, Doubled, BraceField, DecimalValue, Identifier;
    if t == "" {
      FilledEmpty(Braces, positional, named, NextOf(numbering));
    } else if t[0] == '}' || (|t| > 1 && t[0] == '{' && t[1] == '{') {
      DoubledAtHead(t, t[0]);
    } else if t[0] != '{' {
      NoBrace(t);
      FilledPlain(t, Braces, positional, named, NextOf(numbering));
      UndoubledRest(t, '{', 1);
      UndoubledRest(t, '}', 1);
      UndoubledBracesAreRead(t[1..], positional, named, numbering);
    } else {
      var end := IndexOf(t, '}');
      var field, rest := t[1..end], t[end + 1..];
      assert t == "{" + field + "}" + rest;
      NamesAreNameChars(field);
      BraceFieldIs(t, field, rest);
      UndoubledRest(t, '{', end + 1);
      UndoubledRest(t, '}', end + 1);
      if field == "" {
        FilledAutomatic(t, Braces, 2, positional, named, NextOf(numbering));
        UndoubledBracesAreRead(rest, positional, named, Automatic(NextOf(numbering) + 1));
      } else if Decimal(field) {
        FilledNumbered(t, Braces, Field(field, end + 1), positional, named, NextOf(numbering));
        UndoubledBracesAreRead(rest, positional, named, Numbered);
      } else {
        FilledNamed(t, Braces, Field(field, end + 1), positional, named, NextOf(numbering));
        UndoubledBracesAreRead(rest, positional, named, numbering);
      }
    }
  }

  lemma FilledEmpty(style: Style, positional: seq<string>, named: map<string, string>, next: nat)
    ensures Filled("", style, positional, named, next) == ""
  {
  }

  lemma DoubledAtHead(t: string, mark: char)
    requires |t| > 1 && t[0] == mark && t[1] == mark
    ensures Doubled(t, mark)
  {
  }

  lemma NoBrace(t: string)
    requires t != "" && t[0] != '{'
    ensures BraceField(t).None?
  {
  }

  lemma NamesAreNameChars(s: string)
    ensures s == "" || Decimal(s) || Identifier(s) ==> forall i :: 0 <= i < |s| ==> NameChar(s[i])
  {
  }

  lemma NoWidth(s: string)
    requires s != "" && s[0] == 's'
    ensures SpecificationWidth(s) == 0
  {
  }

  /** `%s` and `%(name)s`. */
  lemma PlainConversion(t: string)
    requires |t| > 1 && t[0] == '%' && t[1] == 's'
    ensures PercentField(t) == Some(Field("", 2))
  {
    hide SpecificationWidth;
    NoWidth(t[1..]);
  }

  lemma NamedConversion(t: string, end: nat)
    requires 1 < end < |t| - 1 && t[0] == '%' && t[1] == '(' && t[end] == ')' && t[end + 1] == 's' && Identifier(t[2..end])
    ensures PercentField(t) == Some(Field(t[2..end], end + 2))
  {
    hide SpecificationWidth;
    forall i | 0 <= i < end - 2
      ensures NameChar(t[2..][i])
    {
      assert t[2..][i] == t[2..end][i];
    }
    SpanOfAll(t[2..], end - 2, NameChar);
    NoWidth(t[end + 1..]);
  }

  /** A `%` template that doubles no mark: the gate fills it in as Python does. */
  lemma {:induction false} UndoubledPercentsAreRead(
    t: string, positional: seq<string>, named: map<string, string>, next: nat)
    requires !Doubled(t, '%') && PercentFormatted(t, positional, named, next).Some?
    ensures Filled(t, Percents, positional, named, next) == PercentFormatted(t, positional, named, next).value
    decreases |t|
  {
    hide Filled, Doubled, PercentField, Identifier;
    if t == "" {
      FilledEmpty(Percents, positional, named, next);
    } else if t[0] != '%' {
      NoPercent(t);
      FilledPlain(t, Percents, positional, named, next);
      UndoubledRest(t, '%', 1);
      UndoubledPercentsAreRead(t[1..], positional, named, next);
    } else if t[1] == '%' {
      DoubledAtHead(t, '%');
    } else {
      if t[1] == 's' {
        PlainConversion(t);
        FilledAutomatic(t, Percents, 2, positional, named, next);
        UndoubledRest(t, '%', 2);
        UndoubledPercentsAreRead(t[2..], positional, named, next + 1);
      } else {
        var end := IndexOf(t, ')');
        NamedConversion(t, end);
        FilledNamed(t, Percents, Field(t[2..end], end + 2), positional, named, next);
        UndoubledRest(t, '%', end + 2);
        UndoubledPercentsAreRead(t[end + 2..], positional, named, next);
      }
    }
  }

  lemma NoPercent(t: string)
    requires t != "" && t[0] != '%'
    ensures PercentField(t).None?
  {
  }

  // ----- a doubled brace is misread ----------------------------------------------------------------------------

  function PowerOfTen(n: nat): nat {
    if n == 0 then 1 else 10 * PowerOfTen(n - 1)
  }

  lemma {:induction false} DecimalIsBelow(s: string)
    requires forall i :: 0 <= i < |s| ==> Digit(s[i])
    ensures DecimalValue(s) < PowerOfTen(|s|)
  {
    if s != "" {
      DecimalIsBelow(s[..|s| - 1]);
      assert Digit(s[|s| - 1]);
    }
  }

  lemma {:induction false} PowersGrow(m: nat, n: nat)
    requires m <= n
    ensures 0 < PowerOfTen(m) <= PowerOfTen(n)
  {
    if m < n {
      PowersGrow(m, n - 1);
    } else if n > 0 {
      PowersGrow(n - 1, n - 1);
    }
  }

  /** Every field a template could name has a value, and always the same one. */
  ghost predicate Covers(positional: seq<string>, named: map<string, string>, value: string, t: string) {
    && (forall i :: 0 <= i < |positional| ==> positional[i] == value)
    && (forall n :: n in named ==> named[n] == value)
    && (forall i, j :: 0 <= i <= j <= |t| ==> t[i..j] in named)
    && (forall i, j :: 0 <= i <= j <= |t| && Decimal(t[i..j]) ==> DecimalValue(t[i..j]) < |positional|)
  }

  lemma CoversRest(positional: seq<string>, named: map<string, string>, value: string, t: string, k: nat)
    requires k <= |t| && Covers(positional, named, value, t)
    ensures Covers(positional, named, value, t[k..])
  {
    hide DecimalValue;
    forall i, j | 0 <= i <= j <= |t[k..]|
      ensures t[k..][i..j] in named
      ensures Decimal(t[k..][i..j]) ==> DecimalValue(t[k..][i..j]) < |positional|
    {
      assert t[k..][i..j] == t[k + i..k + j];
    }
  }

  lemma SomeCover(t: string) returns (positional: seq<string>, named: map<string, string>, value: string)
    ensures Covers(positional, named, value, t) && |value| > |t| && |positional| > |t|
  {
    value := t + "!";
    positional := seq(|t| + 1 + PowerOfTen(|t|), i => value);
    var pieces := set i, j | 0 <= i <= j <= |t| :: t[i..j];
    named := map w | w in pieces :: value;
    forall i, j | 0 <= i <= j <= |t| && Decimal(t[i..j])
      ensures DecimalValue(t[i..j]) < |positional|
    {
      DecimalIsBelow(t[i..j]);
      PowersGrow(j - i, |t|);
    }
  }

  lemma CoveredField(
    t: string, positional: seq<string>, named: map<string, string>, value: string, next: nat) returns (later: nat)
    requires Covers(positional, named, value, t) && next < |positional| && BraceField(t).Some?
    ensures later <= next + 1
    ensures Filled(t, Braces, positional, named, next)
            == value + Filled(t[BraceField(t).value.width..], Braces, positional, named, later)
  {
    hide DecimalValue;
    var field := BraceField(t).value;
    var inside := SpanOf(t[1..], NotBrace);
    var word := SpanOf(t[1..1 + inside], NameChar);
    assert field.name == t[1..1 + word];
    assert t[1..1 + word] in named;
    FieldFilled(t, positional, named, next, field);
    later := if field.name != "" then next else next + 1;
  }

  lemma FieldFilled(t: string, positional: seq<string>, named: map<string, string>, next: nat, field: Field)
    requires BraceField(t) == Some(field) && next < |positional| && field.name in named
    requires Decimal(field.name) ==> DecimalValue(field.name) < |positional|
    ensures Filled(t, Braces, positional, named, next)
            == if Decimal(field.name) then
                 positional[DecimalValue(field.name)] + Filled(t[field.width..], Braces, positional, named, next)
               else if field.name != "" then
                 named[field.name] + Filled(t[field.width..], Braces, positional, named, next)
               else
                 positional[next] + Filled(t[field.width..], Braces, positional, named, next + 1)
  {
    hide BraceField, DecimalValue;
  }

  /** What follows a brace that is not doubled up is literal to Python up to the next closing brace. */
  lemma {:induction false} FormattedRun(
    word: string, r: string, positional: seq<string>, named: map<string, string>, numbering: Numbering)
    requires forall i :: 0 <= i < |word| ==> word[i] != '{' && word[i] != '}'
    ensures Formatted(word + "}" + r, positional, named, numbering)
            == if r != "" && r[0] == '}' then
                 Prepended(word + "}", Formatted(r[1..], positional, named, numbering))
               else None
  {
    var t := word + "}" + r;
    if word == "" {
      assert t[1..] == r;
      assert r != "" ==> t[2..] == r[1..];
      assert "" + "}" == "}";
    } else {
      FormattedRun(word[1..], r, positional, named, numbering);
      assert t[1..] == word[1..] + "}" + r;
      assert t[..1] == [word[0]];
      PrependedTwice(t[..1], word[1..] + "}", if r == "" then None else Formatted(r[1..], positional, named, numbering));
      assert t[..1] + (word[1..] + "}") == word + "}";
    }
  }

  lemma PrependedTwice(a: string, b: string, rest: Option<string>)
    ensures Prepended(a, Prepended(b, rest)) == Prepended(a + b, rest)
  {
    if rest.Some? {
      assert a + (b + rest.value) == (a + b) + rest.value;
    }
  }

  /** With such values the gate's text is never the shorter one, and the longer one where a brace is doubled. */
  lemma {:induction false} FilledIsLonger(
    t: string, p: seq<string>, n: map<string, string>, numbering: Numbering,
    positional: seq<string>, named: map<string, string>, value: string, next: nat)
    requires Formatted(t, p, n, numbering).Some?
    requires Covers(positional, named, value, t) && |value| > |t|
    requires next + |t| < |positional| && NextOf(numbering) + |t| < |positional|
    ensures Formatted(t, positional, named, numbering).Some?
    ensures |Filled(t, Braces, positional, named, next)| >= |Formatted(t, positional, named, numbering).value|
    ensures Doubled(t, '{') || Doubled(t, '}') ==>
              |Filled(t, Braces, positional, named, next)| > |Formatted(t, positional, named, numbering).value|
    decreases |t|
  {
    hide Filled, Doubled, BraceField, DecimalValue, Covers;
    if t == "" {
      FilledEmpty(Braces, positional, named, next);
      NothingIsDoubled(t);
    } else if t[0] == '}' {
      NoBrace(t);
      NoBrace(t[1..]);
      FilledPlain(t, Braces, positional, named, next);
      FilledPlain(t[1..], Braces, positional, named, next);
      assert t[1..][1..] == t[2..];
      CoversRest(positional, named, value, t, 2);
      FilledIsLonger(t[2..], p, n, numbering, positional, named, value, next);
    } else if t[0] != '{' {
      NoBrace(t);
      FilledPlain(t, Braces, positional, named, next);
      CoversRest(positional, named, value, t, 1);
      FilledIsLonger(t[1..], p, n, numbering, positional, named, value, next);
      DoubledLater(t, '{');
      DoubledLater(t, '}');
    } else if |t| > 1 && t[1] == '{' {
      OpeningTwice(t, p, n, numbering, positional, named, value, next);
    } else {
      FieldIsLonger(t, p, n, numbering, positional, named, value, next);
    }
  }

  lemma NothingIsDoubled(t: string)
    requires |t| < 2
    ensures !Doubled(t, '{') && !Doubled(t, '}')
  {
  }

  lemma DoubledLater(t: string, mark: char)
    requires t != "" && !(t[0] == mark && |t| > 1 && t[1] == mark)
    ensures Doubled(t, mark) ==> Doubled(t[1..], mark)
  {
    if Doubled(t, mark) {
      var i :| 0 <= i < |t| - 1 && t[i] == mark && t[i + 1] == mark;
      assert t[1..][i - 1] == mark && t[1..][i] == mark;
    }
  }

  lemma {:induction false} OpeningTwice(
    t: string, p: seq<string>, n: map<string, string>, numbering: Numbering,
    positional: seq<string>, named: map<string, string>, value: string, next: nat)
    requires |t| > 1 && t[0] == '{' && t[1] == '{' && Formatted(t, p, n, numbering).Some?
    requires Covers(positional, named, value, t) && |value| > |t|
    requires next + |t| < |positional| && NextOf(numbering) + |t| < |positional|
    ensures Formatted(t, positional, named, numbering).Some?
    ensures |Filled(t, Braces, positional, named, next)| > |Formatted(t, positional, named, numbering).value|
    decreases |t|, 0
  {
    hide Filled, BraceField, DecimalValue, Covers;
    var later := t[1..];
    NoFieldAtTwo(t);
    FilledPlain(t, Braces, positional, named, next);
    CoversRest(positional, named, value, t, 1);
    if BraceField(later).None? {
      FilledPlain(later, Braces, positional, named, next);
      assert later[1..] == t[2..];
      CoversRest(positional, named, value, t, 2);
      FilledIsLonger(t[2..], p, n, numbering, positional, named, value, next);
    } else {
      var width := BraceField(later).value.width;
      var word := BraceWord(later);
      var r := later[width..];
      assert t[2..] == word + "}" + r;
      FormattedRun(word, r, p, n, numbering);
      FormattedRun(word, r, positional, named, numbering);
      var after := CoveredField(later, positional, named, value, next);
      NoBrace(r);
      FilledPlain(r, Braces, positional, named, after);
      assert r[1..] == t[width + 2..];
      CoversRest(positional, named, value, t, width + 2);
      FilledIsLonger(r[1..], p, n, numbering, positional, named, value, after);
    }
  }

  lemma NoFieldAtTwo(t: string)
    requires |t| > 1 && t[0] == '{' && t[1] == '{'
    ensures BraceField(t).None?
  {
  }

  lemma {:induction false} SpanKeeps(s: string, keep: char -> bool)
    ensures forall i :: 0 <= i < SpanOf(s, keep) ==> keep(s[i])
  {
    if s != "" && keep(s[0]) {
      SpanKeeps(s[1..], keep);
    }
  }

  lemma BraceWord(s: string) returns (word: string)
    requires BraceField(s).Some?
    ensures forall i :: 0 <= i < |word| ==> word[i] != '{' && word[i] != '}'
    ensures BraceField(s).value.width == |word| + 2 && s == "{" + word + "}" + s[|word| + 2..]
  {
    var inside := SpanOf(s[1..], NotBrace);
    SpanKeeps(s[1..], NotBrace);
    word := s[1..1 + inside];
    assert forall i :: 0 <= i < |word| ==> NotBrace(s[1..][i]);
    assert s == s[..1] + word + s[1 + inside..2 + inside] + s[inside + 2..];
  }

  lemma {:induction false} FieldIsLonger(
    t: string, p: seq<string>, n: map<string, string>, numbering: Numbering,
    positional: seq<string>, named: map<string, string>, value: string, next: nat)
    requires t != "" && t[0] == '{' && !(|t| > 1 && t[1] == '{') && Formatted(t, p, n, numbering).Some?
    requires Covers(positional, named, value, t) && |value| > |t|
    requires next + |t| < |positional| && NextOf(numbering) + |t| < |positional|
    ensures Formatted(t, positional, named, numbering).Some?
    ensures |Filled(t, Braces, positional, named, next)| >= |Formatted(t, positional, named, numbering).value|
    ensures Doubled(t, '{') || Doubled(t, '}') ==>
              |Filled(t, Braces, positional, named, next)| > |Formatted(t, positional, named, numbering).value|
    decreases |t|, 0
  {
    hide Filled, Doubled, BraceField, DecimalValue, Identifier, Covers, NameChar, IndexOf;
    var end := IndexOf(t, '}');
    var field, rest := t[1..end], t[end + 1..];
    assert t == "{" + field + "}" + rest;
    NamesAreNameChars(field);
    BraceFieldIs(t, field, rest);
    var later := CoveredField(t, positional, named, value, next);
    CoversRest(positional, named, value, t, end + 1);
    DoubledBehindField(t, field, rest);
    FieldCovered(t, positional, named, value, end);
    var onward := if field == "" then Automatic(NextOf(numbering) + 1) else if Decimal(field) then Numbered else numbering;
    FilledIsLonger(rest, p, n, onward, positional, named, value, later);
    ClosedTwice(rest, p, n, onward);
  }

  lemma FieldCovered(t: string, positional: seq<string>, named: map<string, string>, value: string, end: nat)
    requires 1 <= end <= |t| && Covers(positional, named, value, t)
    ensures t[1..end] in named && named[t[1..end]] == value
    ensures Decimal(t[1..end]) ==> DecimalValue(t[1..end]) < |positional|
    ensures forall i :: 0 <= i < |positional| ==> positional[i] == value
  {
    hide DecimalValue;
  }

  lemma ClosedTwice(rest: string, p: seq<string>, n: map<string, string>, numbering: Numbering)
    requires Formatted(rest, p, n, numbering).Some?
    ensures rest != "" && rest[0] == '}' ==> Doubled(rest, '}')
  {
  }

  lemma DoubledBehindField(t: string, field: string, rest: string)
    requires t == "{" + field + "}" + rest && forall i :: 0 <= i < |field| ==> NameChar(field[i])
    ensures Doubled(t, '{') ==> Doubled(rest, '{')
    ensures Doubled(t, '}') ==> Doubled(rest, '}') || (rest != "" && rest[0] == '}')
  {
    var k := |field| + 2;
    assert rest == t[k..];
    forall i | 0 < i < k - 1
      ensures t[i] != '{' && t[i] != '}'
    {
      assert t[i] == field[i - 1];
    }
    if Doubled(t, '{') {
      var i :| 0 <= i < |t| - 1 && t[i] == '{' && t[i + 1] == '{';
      assert rest[i - k] == '{' && rest[i + 1 - k] == '{';
    }
    if Doubled(t, '}') {
      var i :| 0 <= i < |t| - 1 && t[i] == '}' && t[i + 1] == '}';
      if i >= k {
        assert rest[i - k] == '}' && rest[i + 1 - k] == '}';
      }
    }
  }

  ghost predicate FormatAgrees(t: string, positional: seq<string>, named: map<string, string>) {
    Formatted(t, positional, named, NotYet).Some? ==>
      Filled(t, Braces, positional, named, 0) == Formatted(t, positional, named, NotYet).value
  }

  /**
   * For a template some call of `.format` accepts: the gate reads every such call as the string Python makes of it
   * when and only when the template doubles no brace.
   */
  lemma FormatIsReadExactlyWhenUndoubled(t: string, p: seq<string>, n: map<string, string>)
    requires Formatted(t, p, n, NotYet).Some?
    ensures (forall positional, named :: FormatAgrees(t, positional, named))
            <==> !Doubled(t, '{') && !Doubled(t, '}')
  {
    hide Filled, Formatted, Doubled, Covers;
    if Doubled(t, '{') || Doubled(t, '}') {
      var positional, named, value := SomeCover(t);
      FilledIsLonger(t, p, n, NotYet, positional, named, value, 0);
      assert !FormatAgrees(t, positional, named);
    } else {
      forall positional, named
        ensures FormatAgrees(t, positional, named)
      {
        if Formatted(t, positional, named, NotYet).Some? {
          UndoubledBracesAreRead(t, positional, named, NotYet);
        }
      }
    }
  }

  // ----- a doubled percent sign is misread ---------------------------------------------------------------------

  /** Every value is an exclamation mark. */
  ghost predicate Marked(positional: seq<string>, named: map<string, string>) {
    && (forall i :: 0 <= i < |positional| ==> positional[i] == "!")
    && (forall n :: n in named ==> named[n] == "!")
  }

  predicate SpecificationChar(c: char) {
    Flag(c) || Digit(c) || c == '.' || c in "sdrif"
  }

  lemma SpecificationStarts(t: string)
    requires PercentField(t).Some?
    ensures |t| > 1 && t[0] == '%' && (t[1] == '(' || SpecificationChar(t[1]))
    ensures t[1] == ' ' ==> |t| > 2 && SpecificationChar(t[2])
  {
    if |t| > 1 && t[1] == ' ' && !(|t| > 2 && SpecificationChar(t[2])) {
      SpanOfAll(t[1..], 1, Flag);
    }
  }

  lemma MarkedField(t: string, positional: seq<string>, named: map<string, string>, next: nat)
    requires Marked(positional, named) && PercentField(t).Some?
    ensures var filled := Filled(t, Percents, positional, named, next);
            && filled != ""
            && (filled[0] == '!' || (filled[0] == ' ' && |filled| > 1 && filled[1] == '_'))
  {
    hide PercentField, DecimalValue, Decimal;
  }

  lemma PercentFormattedPlain(t: string, positional: seq<string>, named: map<string, string>, next: nat)
    requires t != "" && t[0] != '%' && PercentFormatted(t, positional, named, next).Some?
    ensures PercentFormatted(t[1..], positional, named, next).Some?
    ensures PercentFormatted(t, positional, named, next).value
            == [t[0]] + PercentFormatted(t[1..], positional, named, next).value
  {
  }

  /** Behind the first mark of a pair the gate sees a field, or prints both marks; Python goes on behind the pair. */
  lemma {:induction false} PairIsMisread(
    pad: string, r: string, positional: seq<string>, named: map<string, string>, next: nat)
    requires forall i :: 0 <= i < |pad| ==> pad[i] == '%'
    requires Marked(positional, named) && PercentFormatted(r, positional, named, next).Some?
    ensures pad + Filled("%" + r, Percents, positional, named, next)
            != PercentFormatted(r, positional, named, next).value
    decreases |r|
  {
    hide Filled, PercentField;
    var t := "%" + r;
    var whole := pad + Filled(t, Percents, positional, named, next);
    if PercentField(t).Some? {
      SpecificationStarts(t);
      MarkedField(t, positional, named, next);
      PercentFormattedPlain(r, positional, named, next);
      assert pad != "" ==> whole[0] == '%';
      assert pad == "" ==> whole == Filled(t, Percents, positional, named, next);
      if r[0] == ' ' {
        PercentFormattedPlain(r[1..], positional, named, next);
        assert PercentFormatted(r, positional, named, next).value[1] == r[1];
      }
    } else {
      FilledPlain(t, Percents, positional, named, next);
      assert t[1..] == r && t[..1] == "%";
      if |r| > 1 && r[0] == '%' && r[1] == '%' {
        NoFieldAtPair(r);
        FilledPlain(r, Percents, positional, named, next);
        assert r[1..] == "%" + r[2..] && r[..1] == "%";
        PairIsMisread(pad + "%", r[2..], positional, named, next);
        CancelMark(pad, Filled("%" + r[2..], Percents, positional, named, next),
                   PercentFormatted(r[2..], positional, named, next).value);
      } else if r != "" && r[0] != '%' {
        PercentFormattedPlain(r, positional, named, next);
        assert whole[0] == '%';
      } else if r != "" {
        MarkedConversion(r, positional, named, next);
        assert whole[0] == '%';
      }
    }
  }

  lemma NoFieldAtPair(t: string)
    requires |t| > 1 && t[0] == '%' && t[1] == '%'
    ensures PercentField(t).None?
  {
  }

  lemma CancelMark(pad: string, a: string, b: string)
    requires forall i :: 0 <= i < |pad| ==> pad[i] == '%'
    ensures pad + ("%" + ("%" + a)) == "%" + b ==> pad + "%" + a == b
  {
    var long, short, whole := pad + ("%" + ("%" + a)), pad + "%" + a, "%" + b;
    if long == whole {
      assert |short| == |b|;
      forall i | 0 <= i < |short|
        ensures short[i] == b[i]
      {
        assert long[i + 1] == whole[i + 1];
      }
    }
  }

  lemma SameHead(head: string, a: string, b: string)
    ensures head + a == head + b ==> a == b
  {
    assert (head + a)[|head|..] == a && (head + b)[|head|..] == b;
  }

  lemma MarkedConversion(t: string, positional: seq<string>, named: map<string, string>, next: nat)
    requires Marked(positional, named) && PercentFormatted(t, positional, named, next).Some?
    requires t != "" && t[0] == '%' && !(|t| > 1 && t[1] == '%')
    ensures PercentFormatted(t, positional, named, next).value != ""
    ensures PercentFormatted(t, positional, named, next).value[0] == '!'
  {
  }

  lemma {:induction false} DoubledIsMisread(t: string, positional: seq<string>, named: map<string, string>, next: nat)
    requires Marked(positional, named) && PercentFormatted(t, positional, named, next).Some?
    ensures Doubled(t, '%') ==>
              Filled(t, Percents, positional, named, next) != PercentFormatted(t, positional, named, next).value
    decreases |t|
  {
    hide Filled, PercentField, Doubled, Identifier;
    if |t| < 2 {
      TooShortForPair(t);
    } else if t[0] != '%' {
      NoPercent(t);
      FilledPlain(t, Percents, positional, named, next);
      DoubledLater(t, '%');
      DoubledIsMisread(t[1..], positional, named, next);
      SameHead(t[..1], Filled(t[1..], Percents, positional, named, next),
               PercentFormatted(t[1..], positional, named, next).value);
    } else if t[1] == '%' {
      NoFieldAtPair(t);
      FilledPlain(t, Percents, positional, named, next);
      assert t[1..] == "%" + t[2..];
      PairIsMisread("", t[2..], positional, named, next);
      assert "" + Filled(t[1..], Percents, positional, named, next) == Filled(t[1..], Percents, positional, named, next);
      SameHead("%", Filled(t[1..], Percents, positional, named, next),
               PercentFormatted(t[2..], positional, named, next).value);
    } else {
      ConversionThenPair(t, positional, named, next);
    }
  }

  lemma TooShortForPair(t: string)
    requires |t| < 2
    ensures !Doubled(t, '%')
  {
  }

  lemma {:induction false} ConversionThenPair(
    t: string, positional: seq<string>, named: map<string, string>, next: nat)
    requires Marked(positional, named) && PercentFormatted(t, positional, named, next).Some?
    requires |t| > 1 && t[0] == '%' && t[1] != '%'
    ensures Doubled(t, '%') ==>
              Filled(t, Percents, positional, named, next) != PercentFormatted(t, positional, named, next).value
    decreases |t|, 0
  {
    hide Filled, PercentField, Doubled, Identifier;
    if t[1] == 's' {
      PlainConversion(t);
      FilledAutomatic(t, Percents, 2, positional, named, next);
      NoPairBefore(t, 2);
      DoubledIsMisread(t[2..], positional, named, next + 1);
      SameHead("!", Filled(t[2..], Percents, positional, named, next + 1),
               PercentFormatted(t[2..], positional, named, next + 1).value);
    } else {
      var end := IndexOf(t, ')');
      NamedConversion(t, end);
      FilledNamed(t, Percents, Field(t[2..end], end + 2), positional, named, next);
      NameHoldsNoPercent(t, end);
      NoPairBefore(t, end + 2);
      DoubledIsMisread(t[end + 2..], positional, named, next);
      SameHead("!", Filled(t[end + 2..], Percents, positional, named, next),
               PercentFormatted(t[end + 2..], positional, named, next).value);
    }
  }

  lemma NameHoldsNoPercent(t: string, end: nat)
    requires 2 <= end < |t| - 1 && Identifier(t[2..end]) && t[1] == '(' && t[end] == ')' && t[end + 1] == 's'
    ensures forall i :: 0 < i < end + 2 ==> t[i] != '%'
  {
    forall i | 2 <= i < end
      ensures t[i] != '%'
    {
      assert t[i] == t[2..end][i - 2];
    }
  }

  lemma NoPairBefore(t: string, n: nat)
    requires n <= |t| && forall i :: 0 < i < n ==> t[i] != '%'
    requires n > 1
    ensures Doubled(t, '%') ==> Doubled(t[n..], '%')
  {
    if Doubled(t, '%') {
      var i :| 0 <= i < |t| - 1 && t[i] == '%' && t[i + 1] == '%';
      assert t[n..][i - n] == '%' && t[n..][i + 1 - n] == '%';
    }
  }

  ghost predicate PercentAgrees(t: string, positional: seq<string>, named: map<string, string>) {
    PercentFormatted(t, positional, named, 0).Some? ==>
      Filled(t, Percents, positional, named, 0) == PercentFormatted(t, positional, named, 0).value
  }

  /** Whether `%` raises does not depend on what the values are. */
  lemma {:induction false} OnlyShapeMatters(
    t: string, p: seq<string>, n: map<string, string>, positional: seq<string>, named: map<string, string>, next: nat)
    requires |p| == |positional| && n.Keys == named.Keys && PercentFormatted(t, p, n, next).Some?
    ensures PercentFormatted(t, positional, named, next).Some?
    decreases |t|
  {
    hide Identifier;
    if t == "" {
    } else if t[0] != '%' {
      OnlyShapeMatters(t[1..], p, n, positional, named, next);
    } else if t[1] == '%' {
      OnlyShapeMatters(t[2..], p, n, positional, named, next);
    } else if t[1] == 's' {
      OnlyShapeMatters(t[2..], p, n, positional, named, next + 1);
    } else {
      OnlyShapeMatters(t[IndexOf(t, ')') + 2..], p, n, positional, named, next);
    }
  }

  /** Likewise for `%`: every use of the template is read as the string Python makes when and only when no `%` is doubled. */
  lemma PercentIsReadExactlyWhenUndoubled(t: string, p: seq<string>, n: map<string, string>)
    requires PercentFormatted(t, p, n, 0).Some?
    ensures (forall positional, named :: PercentAgrees(t, positional, named)) <==> !Doubled(t, '%')
  {
    hide Filled, PercentFormatted, Doubled;
    if Doubled(t, '%') {
      var positional, named := seq(|p|, i => "!"), map k | k in n :: "!";
      OnlyShapeMatters(t, p, n, positional, named, 0);
      DoubledIsMisread(t, positional, named, 0);
      assert !PercentAgrees(t, positional, named);
    } else {
      forall positional, named
        ensures PercentAgrees(t, positional, named)
      {
        if PercentFormatted(t, positional, named, 0).Some? {
          UndoubledPercentsAreRead(t, positional, named, 0);
        }
      }
    }
  }

  // ----- one field -----------------------------------------------------------------------------------------------

  /** Letters, digits and underscores. */
  predicate Worded(name: string) {
    forall i :: 0 <= i < |name| ==>
      'a' <= name[i] <= 'z' || 'A' <= name[i] <= 'Z' || '0' <= name[i] <= '9' || name[i] == '_'
  }

  predicate Digits(s: string) {
    forall i :: 0 <= i < |s| ==> '0' <= s[i] <= '9'
  }

  lemma {:induction false} SpanOfHead(head: string, tail: string, keep: char -> bool)
    requires forall i :: 0 <= i < |head| ==> keep(head[i])
    requires tail != "" ==> !keep(tail[0])
    ensures SpanOf(head + tail, keep) == |head|
  {
    SpanOfAll(head + tail, |head|, keep);
  }

  lemma SpecifiedField(name: string, spec: string, rest: string)
    requires Worded(name) && (forall i :: 0 <= i < |spec| ==> spec[i] != '{' && spec[i] != '}')
    requires spec != "" ==> !NameChar(spec[0])
    ensures BraceField("{" + ((name + spec) + ("}" + rest))) == Some(Field(name, |name + spec| + 2))
  {
    var s := "{" + ((name + spec) + ("}" + rest));
    assert s[1..] == (name + spec) + ("}" + rest);
    SpanOfHead(name + spec, "}" + rest, NotBrace);
    assert s[1..1 + |name + spec|] == name + spec;
    SpanOfHead(name, spec, NameChar);
    assert s[1..1 + |name|] == name;
    assert s[1 + |name + spec|] == s[1..][|name + spec|] == '}';
  }

  /** `{name}` with anything but a brace behind the name is one field; a value that is missing reads as the unknown. */
  lemma BraceFieldIsFilled(
    name: string, spec: string, rest: string, positional: seq<string>, named: map<string, string>, next: nat)
    requires Worded(name) && (forall i :: 0 <= i < |spec| ==> spec[i] != '{' && spec[i] != '}')
    requires spec != "" ==> !Worded([spec[0]])
    ensures var filled := Filled("{" + ((name + spec) + ("}" + rest)), Braces, positional, named, next);
            && (name == "" ==>
                  filled == (if next < |positional| then positional[next] else " __X__ ")
                            + Filled(rest, Braces, positional, named, next + 1))
            && (name != "" && Digits(name) ==>
                  filled == (if DecimalValue(name) < |positional| then positional[DecimalValue(name)] else " __X__ ")
                            + Filled(rest, Braces, positional, named, next))
            && (!Digits(name) ==>
                  filled == (if name in named then named[name] else " __X__ ")
                            + Filled(rest, Braces, positional, named, next))
  {
    hide DecimalValue, Filled, BraceField;
    var s := "{" + ((name + spec) + ("}" + rest));
    SpecifiedField(name, spec, rest);
    assert s[|name + spec| + 2..] == rest;
    FilledAt(s, Braces, Field(name, |name + spec| + 2), positional, named, next);
  }

  lemma FilledAt(
    t: string, style: Style, field: Field, positional: seq<string>, named: map<string, string>, next: nat)
    requires HeadField(t, style) == Some(field) && 0 < field.width <= |t|
    ensures var rest, name := t[field.width..], field.name;
            Filled(t, style, positional, named, next)
            == if Decimal(name) then
                 (if DecimalValue(name) < |positional| then positional[DecimalValue(name)] else UNKNOWN)
                 + Filled(rest, style, positional, named, next)
               else if name != "" then
                 (if name in named then named[name] else UNKNOWN) + Filled(rest, style, positional, named, next)
               else
                 (if next < |positional| then positional[next] else UNKNOWN)
                 + Filled(rest, style, positional, named, next + 1)
  {
    hide BraceField, PercentField, DecimalValue;
  }

  lemma FractionIs(precision: string, rest: string)
    requires precision == "" || (|precision| > 1 && precision[0] == '.' && Digits(precision[1..]))
    requires rest != "" && rest[0] in "sdrif"
    ensures FractionWidth(precision + rest) == |precision|
  {
    if precision != "" {
      assert (precision + rest)[1..] == precision[1..] + rest;
      SpanOfHead(precision[1..], rest, Digit);
    }
  }

  lemma WidthIs(flags: string, width: string, precision: string, rest: string)
    requires forall i :: 0 <= i < |flags| ==> flags[i] in "-#0 +"
    requires Digits(width) && (width != "" ==> width[0] != '0')
    requires precision == "" || (|precision| > 1 && precision[0] == '.' && Digits(precision[1..]))
    requires rest != "" && rest[0] in "sdrif"
    ensures SpecificationWidth(flags + (width + (precision + rest))) == |flags| + |width| + |precision|
  {
    hide SpanOf, FractionWidth;
    var s := flags + (width + (precision + rest));
    SpanOfHead(flags, width + (precision + rest), Flag);
    assert s[|flags|..] == width + (precision + rest);
    SpanOfHead(width, precision + rest, Digit);
    assert s[|flags| + |width|..] == precision + rest;
    FractionIs(precision, rest);
  }

  function Opening(name: string): string {
    if name == "" then "%" else "%(" + (name + ")")
  }

  predicate Converts(tail: string, d: nat) {
    d == SpecificationWidth(tail) && d < |tail| && tail[d] in "sdrif"
  }

  lemma PercentFieldFromMark(tail: string, d: nat)
    requires Converts(tail, d) && tail[0] != '('
    ensures PercentField("%" + tail) == Some(Field("", d + 2))
  {
    hide SpecificationWidth;
    var s := "%" + tail;
    assert s[1] == tail[0] && s[1..] == tail;
  }

  lemma NamedFieldAt(s: string, word: nat, d: nat)
    requires |s| > 1 && s[0] == '%' && s[1] == '(' && SpanOf(s[2..], NameChar) == word > 0
    requires 2 + word < |s| && s[2 + word] == ')' && Converts(s[3 + word..], d)
    ensures PercentField(s) == Some(Field(s[2..2 + word], word + d + 4))
  {
    hide SpecificationWidth, SpanOf;
    assert s[3 + word..][d] == s[3 + word + d];
  }

  lemma PercentFieldFromName(name: string, tail: string, d: nat)
    requires Worded(name) && name != "" && Converts(tail, d)
    ensures PercentField("%(" + (name + ")") + tail) == Some(Field(name, |name| + 3 + d + 1))
  {
    hide SpecificationWidth, SpanOf, PercentField, Converts;
    var s := "%(" + (name + ")") + tail;
    assert s[2..] == name + (")" + tail);
    SpanOfHead(name, ")" + tail, NameChar);
    assert s[2..2 + |name|] == name;
    assert s[3 + |name|..] == tail;
    NamedFieldAt(s, |name|, d);
  }

  lemma TailConverts(flags: string, width: string, precision: string, rest: string)
    requires forall i :: 0 <= i < |flags| ==> flags[i] in "-#0 +"
    requires Digits(width) && (width != "" ==> width[0] != '0')
    requires precision == "" || (|precision| > 1 && precision[0] == '.' && Digits(precision[1..]))
    requires rest != "" && rest[0] in "sdrif"
    ensures Converts(flags + (width + (precision + rest)), |flags| + |width| + |precision|)
  {
    hide SpecificationWidth, Digits;
    WidthIs(flags, width, precision, rest);
  }

  lemma SpecifiedConversion(name: string, flags: string, width: string, precision: string, rest: string)
    requires Worded(name) && (forall i :: 0 <= i < |flags| ==> flags[i] in "-#0 +")
    requires Digits(width) && (width != "" ==> width[0] != '0')
    requires precision == "" || (|precision| > 1 && precision[0] == '.' && Digits(precision[1..]))
    requires rest != "" && rest[0] in "sdrif"
    ensures PercentField(Opening(name) + (flags + (width + (precision + rest))))
            == Some(Field(name, |Opening(name)| + |flags| + |width| + |precision| + 1))
  {
    hide PercentField, Converts, Digits, Worded;
    TailConverts(flags, width, precision, rest);
    TailStarts(flags, width, precision, rest);
    var tail := flags + (width + (precision + rest));
    if name == "" {
      PercentFieldFromMark(tail, |flags| + |width| + |precision|);
    } else {
      PercentFieldFromName(name, tail, |flags| + |width| + |precision|);
    }
  }

  /** `%` or `%(name)`, flags, a width, a precision and a conversion are one field. */
  lemma PercentFieldIsFilled(
    name: string, flags: string, width: string, precision: string, conversion: char, rest: string,
    positional: seq<string>, named: map<string, string>, next: nat)
    requires Worded(name) && (forall i :: 0 <= i < |flags| ==> flags[i] in "-#0 +")
    requires Digits(width) && (width != "" ==> width[0] != '0')
    requires precision == "" || (|precision| > 1 && precision[0] == '.' && Digits(precision[1..]))
    requires conversion in "sdrif"
    ensures var opening := if name == "" then "%" else "%(" + (name + ")");
            var filled := Filled(opening + (flags + (width + (precision + ([conversion] + rest)))),
                                 Percents, positional, named, next);
            && (name == "" ==>
                  filled == (if next < |positional| then positional[next] else " __X__ ")
                            + Filled(rest, Percents, positional, named, next + 1))
            && (!Digits(name) ==>
                  filled == (if name in named then named[name] else " __X__ ")
                            + Filled(rest, Percents, positional, named, next))
  {
    hide DecimalValue, PercentField, Filled, SpecificationWidth;
    var tail := flags + (width + (precision + ([conversion] + rest)));
    var size := |flags| + |width| + |precision|;
    assert Opening(name) == if name == "" then "%" else "%(" + (name + ")");
    hide Opening;
    SpecifiedConversion(name, flags, width, precision, [conversion] + rest);
    TailEnds(flags, width, precision, [conversion], rest);
    PastOpening(Opening(name), tail, size + 1);
    FilledAt(Opening(name) + tail, Percents, Field(name, |Opening(name)| + size + 1), positional, named, next);
  }

  lemma PastOpening(opening: string, tail: string, n: nat)
    requires n <= |tail|
    ensures (opening + tail)[|opening| + n..] == tail[n..]
  {
  }

  lemma TailEnds(flags: string, width: string, precision: string, conversion: string, rest: string)
    ensures (flags + (width + (precision + (conversion + rest))))
            [|flags| + |width| + |precision| + |conversion|..] == rest
  {
    PastOpening(flags, width + (precision + (conversion + rest)), |width| + |precision| + |conversion|);
    PastOpening(width, precision + (conversion + rest), |precision| + |conversion|);
    PastOpening(precision, conversion + rest, |conversion|);
  }

  lemma TailStarts(flags: string, width: string, precision: string, rest: string)
    requires (forall i :: 0 <= i < |flags| ==> flags[i] in "-#0 +") && Digits(width)
    requires (precision == "" || precision[0] == '.') && rest != "" && rest[0] in "sdrif"
    ensures (flags + (width + (precision + rest)))[0] != '('
  {
    var s := flags + (width + (precision + rest));
    assert s[0] == if flags != "" then flags[0] else if width != "" then width[0]
                   else if precision != "" then precision[0] else rest[0];
  }

  // ----- numbers ---------------------------------------------------------------------------------------------------

  function Written(n: nat): string {
    if n < 10 then ["0123456789"[n]] else Written(n / 10) + ["0123456789"[n % 10]]
  }

  /** A numbered field names its position in decimal. */
  lemma {:induction false} WrittenNumberIsRead(n: nat)
    ensures Decimal(Written(n)) && DecimalValue(Written(n)) == n
  {
    var last := "0123456789"[n % 10];
    assert '0' <= last <= '9' && last as int - '0' as int == n % 10;
    if n >= 10 {
      WrittenNumberIsRead(n / 10);
      var earlier := Written(n / 10);
      assert (earlier + [last])[..|earlier|] == earlier;
    } else {
      assert Written(n)[..0] == "";
    }
  }
}
