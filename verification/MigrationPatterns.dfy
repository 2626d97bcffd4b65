/** The destructive patterns as texts: what a statement has to look like, word for word, to be reported. */
module MigrationPatterns {
  import opened Casing
  import opened MigrationLayout
  import opened MigrationSql
  import opened Outcomes
  import opened Trimming
  import T = MigrationText

  // ----- where a word starts and ends ---------------------------------------------------------------------------

  predicate WordLetter(c: char) {
    'A' <= c <= 'Z' || 'a' <= c <= 'z' || '0' <= c <= '9' || c == '_'
  }

  /** No letter, digit or underscore stands before, or after. */
  predicate Before(u: string) {
    u == "" || !WordLetter(u[|u| - 1])
  }

  predicate After(v: string) {
    v == "" || !WordLetter(v[0])
  }

  lemma LiteralExactly(s: string, i: nat, word: string)
    requires i <= |s|
    ensures LiteralAt(s, i, word) <==> word <= s[i..]
  {
    if i + |word| <= |s| {
      assert s[i..][..|word|] == s[i..i + |word|];
    }
  }

  lemma BoundaryInside(s: string, i: nat)
    requires i <= |s|
    ensures Boundary(s, i) <==>
            (i > 0 && WordLetter(s[i - 1])) != (i < |s| && WordLetter(s[i]))
  {
  }

  /** A word at a place, as the rest of the text from there. */
  lemma WordExactly(s: string, i: nat, word: string)
    requires i <= |s| && word != "" && WordLetter(word[|word| - 1])
    ensures WordAt(s, i, word) <==> word <= s[i..] && After(s[i..][|word|..])
  {
    LiteralExactly(s, i, word);
    if word <= s[i..] {
      var k := i + |word|;
      assert s[i..][|word|..] == s[k..] && s[k - 1] == s[i..][|word| - 1] == word[|word| - 1];
      BoundaryInside(s, k);
    }
  }

  // ----- drops ------------------------------------------------------------------------------------------------------

  predicate StartsWithA(v: string, word: string) {
    word <= v && After(v[|word|..])
  }

  /** The statement, cut in two at the pattern: what stands before, and what the verb is followed by. */
  predicate DropsObjectAt(u: string, v: string) {
    && Before(u) && "DROP " <= v
    && (StartsWithA(v[5..], "TABLE") || StartsWithA(v[5..], "COLUMN") || StartsWithA(v[5..], "VIEW")
        || StartsWithA(v[5..], "MATERIALIZED VIEW") || StartsWithA(v[5..], "TYPE") || StartsWithA(v[5..], "SCHEMA"))
  }

  predicate AltersTableAt(u: string, v: string) {
    Before(u) && StartsWithA(v, "ALTER TABLE")
  }

  predicate DropsColumnAt(u: string, v: string) {
    && Before(u) && "DROP " <= v && |v| > 5 && !Blank(v[5])
    && !StartsWithA(v[5..], "CONSTRAINT") && !StartsWithA(v[5..], "NOT NULL") && !StartsWithA(v[5..], "DEFAULT")
    && !StartsWithA(v[5..], "IDENTITY") && !StartsWithA(v[5..], "EXPRESSION")
  }

  predicate RenamesAt(u: string, v: string) {
    Before(u) && "RENAME " <= v && |v| > 7 && !Blank(v[7]) && !StartsWithA(v[7..], "CONSTRAINT")
  }

  lemma VerbBoundary(s: string, i: nat, verb: string)
    requires i <= |s| && verb != "" && WordLetter(verb[0]) && verb <= s[i..]
    ensures Boundary(s, i) <==> Before(s[..i])
  {
    assert s[i] == s[i..][0] == verb[0];
    BoundaryInside(s, i);
  }

  lemma DropObjectExactly(s: string, i: nat)
    requires i <= |s|
    ensures DropObjectAt(s, i) <==> DropsObjectAt(s[..i], s[i..])
  {
    LiteralExactly(s, i, "DROP ");
    if "DROP " <= s[i..] {
      VerbBoundary(s, i, "DROP ");
      assert s[i..][5..] == s[i + 5..];
      ObjectExactly(s, i + 5);
      hide WordAt, Boundary, Before, StartsWithA, LiteralAt, OBJECTS;
    }
  }

  lemma ObjectExactly(s: string, i: nat)
    requires i <= |s|
    ensures (exists k :: 0 <= k < |OBJECTS| && WordAt(s, i, OBJECTS[k])) <==>
            || StartsWithA(s[i..], "TABLE") || StartsWithA(s[i..], "COLUMN") || StartsWithA(s[i..], "VIEW")
            || StartsWithA(s[i..], "MATERIALIZED VIEW") || StartsWithA(s[i..], "TYPE") || StartsWithA(s[i..], "SCHEMA")
  {
    WordExactly(s, i, "TABLE");
    WordExactly(s, i, "COLUMN");
    WordExactly(s, i, "VIEW");
    WordExactly(s, i, "MATERIALIZED VIEW");
    WordExactly(s, i, "TYPE");
    WordExactly(s, i, "SCHEMA");
    assert |OBJECTS| == 6 && OBJECTS[0] == "TABLE" && OBJECTS[1] == "COLUMN" && OBJECTS[2] == "VIEW";
    assert OBJECTS[3] == "MATERIALIZED VIEW" && OBJECTS[4] == "TYPE" && OBJECTS[5] == "SCHEMA";
    hide WordAt;
  }

  lemma KeptExactly(s: string, i: nat)
    requires i <= |s|
    ensures (exists k :: 0 <= k < |KEPT| && WordAt(s, i, KEPT[k])) <==>
            || StartsWithA(s[i..], "CONSTRAINT") || StartsWithA(s[i..], "NOT NULL") || StartsWithA(s[i..], "DEFAULT")
            || StartsWithA(s[i..], "IDENTITY") || StartsWithA(s[i..], "EXPRESSION")
  {
    WordExactly(s, i, "CONSTRAINT");
    WordExactly(s, i, "NOT NULL");
    WordExactly(s, i, "DEFAULT");
    WordExactly(s, i, "IDENTITY");
    WordExactly(s, i, "EXPRESSION");
    assert |KEPT| == 5 && KEPT[0] == "CONSTRAINT" && KEPT[1] == "NOT NULL" && KEPT[2] == "DEFAULT";
    assert KEPT[3] == "IDENTITY" && KEPT[4] == "EXPRESSION";
    hide WordAt;
  }

  lemma AlterTableExactly(s: string, i: nat)
    requires i <= |s|
    ensures AlterTableAt(s, i) <==> AltersTableAt(s[..i], s[i..])
  {
    WordExactly(s, i, "ALTER TABLE");
    if "ALTER TABLE" <= s[i..] {
      VerbBoundary(s, i, "ALTER TABLE");
    }
    hide Boundary, Before, After, WordAt;
  }

  lemma DropColumnExactly(s: string, i: nat)
    requires i <= |s|
    ensures DropColumnAt(s, i) <==> DropsColumnAt(s[..i], s[i..])
  {
    LiteralExactly(s, i, "DROP ");
    if "DROP " <= s[i..] {
      VerbBoundary(s, i, "DROP ");
      assert s[i..][5..] == s[i + 5..];
      KeptExactly(s, i + 5);
      hide WordAt, Boundary, Before, StartsWithA, LiteralAt, KEPT, Blank;
    }
  }

  lemma RenameExactly(s: string, i: nat)
    requires i <= |s|
    ensures RenameAt(s, i) <==> RenamesAt(s[..i], s[i..])
  {
    LiteralExactly(s, i, "RENAME ");
    if "RENAME " <= s[i..] {
      VerbBoundary(s, i, "RENAME ");
      assert s[i..][7..] == s[i + 7..];
      WordExactly(s, i + 7, "CONSTRAINT");
      hide WordAt, Boundary, Before, After, LiteralAt, Blank;
    }
  }

  // ----- statements -----------------------------------------------------------------------------------------------------

  /** A statement that can be cut where the pattern starts. */
  ghost predicate Cut(s: string, at: (string, string) -> bool) {
    exists u, v :: s == u + v && at(u, v)
  }

  lemma CutExactly(s: string, search: (string, int) -> bool, at: (string, string) -> bool)
    requires forall i: nat :: i <= |s| ==> (search(s, i) <==> at(s[..i], s[i..]))
    ensures Found(s, search) <==> Cut(s, at)
  {
    if Found(s, search) {
      var i :| 0 <= i <= |s| && search(s, i);
      assert s == s[..i] + s[i..] && at(s[..i], s[i..]);
    }
    if Cut(s, at) {
      var u, v :| s == u + v && at(u, v);
      assert s[..|u|] == u && s[|u|..] == v;
      assert search(s, |u|);
    }
  }

  /** What is reported as a drop: the drop of an object, or a drop inside `ALTER TABLE` that loses a column. */
  lemma DropsExactly(s: string)
    ensures Drops(s) <==> Cut(s, DropsObjectAt) || (Cut(s, AltersTableAt) && Cut(s, DropsColumnAt))
  {
    hide Found, Cut, DropObjectAt, AlterTableAt, DropColumnAt, DropsObjectAt, AltersTableAt, DropsColumnAt;
    forall i: nat | i <= |s|
      ensures DropObjectAt(s, i) <==> DropsObjectAt(s[..i], s[i..])
      ensures AlterTableAt(s, i) <==> AltersTableAt(s[..i], s[i..])
      ensures DropColumnAt(s, i) <==> DropsColumnAt(s[..i], s[i..])
    {
      DropObjectExactly(s, i);
      AlterTableExactly(s, i);
      DropColumnExactly(s, i);
    }
    CutExactly(s, DropObjectAt, DropsObjectAt);
    CutExactly(s, AlterTableAt, AltersTableAt);
    CutExactly(s, DropColumnAt, DropsColumnAt);
  }

  /** What is reported as a rename: one of anything but a constraint, and not of an index. */
  lemma RenamesExactly(s: string)
    ensures Renames(s) <==> Cut(s, RenamesAt) && !StartsWithA(DropBlanks(s), "ALTER INDEX")
  {
    hide Found, Cut, RenameAt, RenamesAt;
    forall i: nat | i <= |s|
      ensures RenameAt(s, i) <==> RenamesAt(s[..i], s[i..])
    {
      RenameExactly(s, i);
    }
    CutExactly(s, RenameAt, RenamesAt);
    WordExactly(DropBlanks(s), 0, "ALTER INDEX");
    assert DropBlanks(s)[0..] == DropBlanks(s);
  }

  // ----- whole texts, however laid out ---------------------------------------------------------------------------------

  lemma {:induction false} OneStatement(s: string)
    requires ';' !in s
    ensures Split(s) == [s]
  {
    if s != "" {
      OneStatement(s[1..]);
      assert [s[0]] + s[1..] == s;
    }
  }

  predicate NoSemicolons(words: seq<string>) {
    forall i :: 0 <= i < |words| ==> ';' !in words[i]
  }

  lemma {:induction false} JoinHasNoSemicolon(words: seq<string>)
    requires NoSemicolons(words)
    ensures ';' !in T.Join(" ", words)
  {
    if |words| > 1 {
      JoinHasNoSemicolon(words[1..]);
    }
  }

  lemma OneStatementIsReported(kind: Kind, sql: string)
    requires Split(Normalized(sql)) == [Normalized(sql)]
    ensures Reports(kind, sql) <==> Destructive(kind, Normalized(sql))
  {
    hide Destructive, Normalized, Split;
    var n := Normalized(sql);
    assert [n][0] == n;
    assert Contains(kind, [n]) <==> Destructive(kind, n);
  }

  /** One statement is judged by its words in capitals, whatever stands between them and in whatever case. */
  lemma StatementIsJudgedByItsWords(kind: Kind, bits: seq<Bit>)
    requires LaidOut(bits) && NoSemicolons(Capitals(WordsOf(bits)))
    ensures Reports(kind, TextOf(bits)) <==> Destructive(kind, T.Join(" ", Capitals(WordsOf(bits))))
  {
    hide *;
    LayoutDoesNotMatter(bits);
    JoinHasNoSemicolon(Capitals(WordsOf(bits)));
    OneStatement(T.Join(" ", Capitals(WordsOf(bits))));
    OneStatementIsReported(kind, TextOf(bits));
  }

  lemma JoinOfThree(a: string, b: string, c: string)
    ensures T.Join(" ", [a, b, c]) == a + " " + b + " " + c
  {
    hide *;
    JoinOfOne(c);
    JoinOfMore(b, [c]);
    JoinOfMore(a, [b, c]);
    assert [b] + [c] == [b, c] && [a] + [b, c] == [a, b, c];
    assert a + " " + (b + " " + c) == a + " " + b + " " + c;
  }

  lemma JoinOfFive(a: string, b: string, c: string, d: string, e: string)
    ensures T.Join(" ", [a, b, c, d, e]) == a + " " + b + " " + c + " " + (d + " " + e)
  {
    hide *;
    JoinOfThree(c, d, e);
    JoinOfMore(b, [c, d, e]);
    JoinOfMore(a, [b, c, d, e]);
    assert [b] + [c, d, e] == [b, c, d, e] && [a] + [b, c, d, e] == [a, b, c, d, e];
    assert a + " " + (b + " " + (c + " " + d + " " + e)) == a + " " + b + " " + c + " " + (d + " " + e);
  }

  /** The words from one on, as one phrase. */
  lemma {:induction false} JoinOfPhrase(words: seq<string>, rest: seq<string>)
    requires rest != []
    ensures T.Join(" ", words + rest) == T.Join(" ", words + [T.Join(" ", rest)])
  {
    var phrase := T.Join(" ", rest);
    if words == [] {
      assert words + rest == rest && words + [phrase] == [phrase];
      JoinOfOne(phrase);
    } else {
      JoinOfPhrase(words[1..], rest);
      JoinOfMore(words[0], words[1..] + rest);
      JoinOfMore(words[0], words[1..] + [phrase]);
      assert words + rest == [words[0]] + (words[1..] + rest);
      assert words + [phrase] == [words[0]] + (words[1..] + [phrase]);
      hide T.Join;
    }
  }

  lemma CapitalsAreSolid(bits: seq<Bit>, earlier: seq<string>, rest: seq<string>)
    requires LaidOut(bits) && Capitals(WordsOf(bits)) == earlier + rest && rest != []
    ensures Starts(T.Join(" ", rest))
    ensures forall i :: 0 <= i < |earlier| ==> Solid(earlier[i])
  {
    WordsAreSolid(bits);
    var words := Capitals(WordsOf(bits));
    forall i | 0 <= i < |words|
      ensures Solid(words[i])
    {
      UpperIsSolid(WordsOf(bits)[i]);
    }
    assert rest[0] == words[|earlier|];
    assert forall i :: 0 <= i < |earlier| ==> earlier[i] == words[i];
    JoinStarts(rest);
  }

  lemma UpperIsSolid(w: string)
    requires Solid(w)
    ensures Solid(Upper(w))
  {
    forall i | 0 <= i < |w|
      ensures !Blank(Upper(w)[i])
    {
      assert !Blank(w[i]);
    }
  }

  /** Something other than white space stands first. */
  predicate Starts(phrase: string) {
    phrase != "" && !Blank(phrase[0])
  }

  lemma JoinStarts(rest: seq<string>)
    requires rest != [] && Solid(rest[0])
    ensures Starts(T.Join(" ", rest))
  {
  }

  lemma CutsHere(u: string, v: string, at: (string, string) -> bool)
    requires at(u, v)
    ensures Cut(u + v, at)
  {
  }

  lemma BlankEnds(u: string)
    ensures Before(u + " ") && After(" " + u)
  {
  }

  lemma ObjectFollows(what: string, name: string)
    requires what == "TABLE" || what == "COLUMN" || what == "VIEW" || what == "TYPE" || what == "SCHEMA"
    ensures DropsObjectAt("", "DROP" + " " + what + " " + name)
  {
    var v := "DROP" + " " + what + " " + name;
    assert v[..5] == "DROP ";
    assert v[5..] == what + (" " + name) && (what + (" " + name))[|what|..] == " " + name;
    BlankEnds(name);
    hide After;
    assert StartsWithA(v[5..], what);
  }

  /** The drop of an object is reported in any case, over any lines and around any comments. */
  lemma ObjectDropIsReported(bits: seq<Bit>, what: string, rest: seq<string>)
    requires LaidOut(bits) && NoSemicolons(Capitals(WordsOf(bits)))
    requires Capitals(WordsOf(bits)) == ["DROP", what] + rest && rest != []
    requires what == "TABLE" || what == "COLUMN" || what == "VIEW" || what == "TYPE" || what == "SCHEMA"
    ensures Reports(ExecuteDrop, TextOf(bits))
  {
    hide *;
    var name := T.Join(" ", rest);
    var s := "DROP" + " " + what + " " + name;
    JoinOfPhrase(["DROP", what], rest);
    assert ["DROP", what] + [name] == ["DROP", what, name];
    JoinOfThree("DROP", what, name);
    StatementIsJudgedByItsWords(ExecuteDrop, bits);
    ObjectFollows(what, name);
    CutsHere("", s, DropsObjectAt);
    assert "" + s == s;
    DropsExactly(s);
    DropIsDestructive(s);
  }

  lemma DropIsDestructive(s: string)
    ensures Destructive(ExecuteDrop, s) <==> Drops(s)
    ensures Destructive(ExecuteRename, s) <==> Renames(s)
  {
    hide Drops, Renames;
  }

  predicate KeptWord(v: string) {
    || StartsWithA(v, "CONSTRAINT") || StartsWithA(v, "NOT NULL") || StartsWithA(v, "DEFAULT")
    || StartsWithA(v, "IDENTITY") || StartsWithA(v, "EXPRESSION")
  }

  lemma TableIsAltered(rest: string)
    requires After(rest)
    ensures AltersTableAt("", "ALTER TABLE" + rest)
  {
    assert ("ALTER TABLE" + rest)[11..] == rest;
  }

  lemma ColumnFollows(u: string, column: string)
    requires Starts(column) && !KeptWord(column)
    ensures DropsColumnAt(u + " ", "DROP" + " " + column)
  {
    BlankEnds(u);
    hide Before, StartsWithA;
    var v := "DROP" + " " + column;
    assert v[..5] == "DROP " && v[5..] == column;
  }

  lemma AlteringText(b: string, table: string, last: string) returns (u: string)
    ensures u == "ALTER" + " " + b + " " + table
    ensures u + " " + last == (u + " ") + last
    ensures b == "TABLE" ==> u + " " + last == "ALTER TABLE" + (" " + (table + " " + last))
    ensures u + " " + last == "ALTER " + b + (" " + (table + " " + last))
  {
    u := "ALTER" + " " + b + " " + table;
    assert "ALTER" + " " == "ALTER ";
    assert u + " " + last == "ALTER " + b + (" " + (table + " " + last));
    if b == "TABLE" {
      assert "ALTER" + " " + "TABLE" == "ALTER TABLE";
      assert u + " " + last == "ALTER TABLE" + (" " + (table + " " + last));
    }
  }

  lemma AlterJoins(altered: string, table: string, verb: string, rest: seq<string>) returns (u: string, v: string)
    requires rest != []
    ensures u == "ALTER" + " " + altered + " " + table && v == verb + " " + T.Join(" ", rest)
    ensures T.Join(" ", ["ALTER", altered, table, verb] + rest) == u + " " + v == (u + " ") + v
    ensures u + " " + v == "ALTER " + altered + (" " + (table + " " + v))
    ensures altered == "TABLE" ==> u + " " + v == "ALTER TABLE" + (" " + (table + " " + v))
  {
    hide *;
    var phrase := T.Join(" ", rest);
    JoinOfPhrase(["ALTER", altered, table, verb], rest);
    assert ["ALTER", altered, table, verb] + [phrase] == ["ALTER", altered, table, verb, phrase];
    JoinOfFive("ALTER", altered, table, verb, phrase);
    v := verb + " " + phrase;
    u := AlteringText(altered, table, v);
  }

  /** Inside `ALTER TABLE` so is the drop of anything but a constraint, a default and their like. */
  lemma ColumnDropIsReported(bits: seq<Bit>, table: string, rest: seq<string>)
    requires LaidOut(bits) && NoSemicolons(Capitals(WordsOf(bits)))
    requires Capitals(WordsOf(bits)) == ["ALTER", "TABLE", table, "DROP"] + rest && rest != []
    requires !KeptWord(T.Join(" ", rest))
    ensures Reports(ExecuteDrop, TextOf(bits))
  {
    CapitalsAreSolid(bits, ["ALTER", "TABLE", table, "DROP"], rest);
    hide *;
    StatementIsJudgedByItsWords(ExecuteDrop, bits);
    var u, v := AlterJoins("TABLE", table, "DROP", rest);
    var s := u + " " + v;
    BlankEnds(table + " " + v);
    TableIsAltered(" " + (table + " " + v));
    CutsHere("", s, AltersTableAt);
    assert "" + s == s;
    ColumnFollows(u, T.Join(" ", rest));
    CutsHere(u + " ", v, DropsColumnAt);
    DropsExactly(s);
    DropIsDestructive(s);
  }

  lemma NameFollows(u: string, renamed: string)
    requires Starts(renamed) && !StartsWithA(renamed, "CONSTRAINT")
    ensures RenamesAt(u + " ", "RENAME" + " " + renamed)
  {
    BlankEnds(u);
    hide Before, StartsWithA;
    var v := "RENAME" + " " + renamed;
    assert v[..7] == "RENAME " && v[7..] == renamed;
  }

  lemma AltersIndexExactly(altered: string, rest: string)
    requires Solid(altered)
    ensures var s := "ALTER " + altered + (" " + rest);
            DropBlanks(s) == s && (StartsWithA(s, "ALTER INDEX") <==> altered == "INDEX" || StartsWithA(altered, "INDEX"))
  {
    var more := altered + (" " + rest);
    var s := "ALTER " + altered + (" " + rest);
    assert s == "ALTER " + more && s[0] == 'A';
    IndexFollows(more);
    if |altered| >= 5 {
      assert more[..5] == altered[..5] && more[5..] == altered[5..] + (" " + rest);
    } else {
      assert more[|altered|] == ' ' && "INDEX"[|altered|] != ' ';
    }
  }

  lemma IndexFollows(more: string)
    ensures StartsWithA("ALTER " + more, "ALTER INDEX") <==> StartsWithA(more, "INDEX")
  {
    var s := "ALTER " + more;
    if |more| >= 5 {
      assert s[..11] == "ALTER " + more[..5] && s[11..] == more[5..];
      assert "ALTER INDEX" == "ALTER " + "INDEX";
      if s[..11] == "ALTER INDEX" {
        assert more[..5] == s[6..11] == "INDEX";
      }
    }
  }

  /** The statement renames something, and is the alteration of an index. */
  ghost predicate RenamesIndex(statement: string) {
    Cut(statement, RenamesAt) && StartsWithA(DropBlanks(statement), "ALTER INDEX")
  }

  lemma IndexRenamed(s: string)
    ensures RenamesIndex(s) <==> Cut(s, RenamesAt) && StartsWithA(DropBlanks(s), "ALTER INDEX")
  {
  }

  /** A rename is reported, in whatever statement it stands, but for a constraint's and an index's. */
  lemma RenameIsReportedExactly(bits: seq<Bit>, altered: string, name: string, rest: seq<string>)
    requires LaidOut(bits) && NoSemicolons(Capitals(WordsOf(bits)))
    requires Capitals(WordsOf(bits)) == ["ALTER", altered, name, "RENAME"] + rest && rest != []
    requires !StartsWithA(T.Join(" ", rest), "CONSTRAINT")
    ensures Reports(ExecuteRename, TextOf(bits)) <==> !StartsWithA(altered, "INDEX")
    ensures StartsWithA(altered, "INDEX") ==> RenamesIndex(T.Join(" ", Capitals(WordsOf(bits))))
  {
    CapitalsAreSolid(bits, ["ALTER", altered, name, "RENAME"], rest);
    assert Solid(["ALTER", altered, name, "RENAME"][1]);
    assert altered == "INDEX" ==> StartsWithA(altered, "INDEX");
    hide *;
    StatementIsJudgedByItsWords(ExecuteRename, bits);
    var u, v := AlterJoins(altered, name, "RENAME", rest);
    var s := u + " " + v;
    NameFollows(u, T.Join(" ", rest));
    CutsHere(u + " ", v, RenamesAt);
    AltersIndexExactly(altered, name + " " + v);
    RenamesExactly(s);
    DropIsDestructive(s);
    IndexRenamed(s);
  }
}
