/** The Turtle prefix repair that runs before a TTL source is parsed
    (chart-renderer.js, ensurePrefixes): every required prefix that the text
    does not declare gets an `@prefix` line, and the lines are put in front of
    the text. */
module Prefixes {

  import opened Sequences
  import opened JsText

  datatype Prefix = Prefix(key: string, iri: string)

  /** The prefixes the parser needs, in the order they are checked. */
  const Required: seq<Prefix> := [
    Prefix("rdfs", "http://www.w3.org/2000/01/rdf-schema#"),
    Prefix("rdf", "http://www.w3.org/1999/02/22-rdf-syntax-ns#"),
    Prefix("skos", "http://www.w3.org/2004/02/skos/core#"),
    Prefix("time", "http://www.w3.org/2006/time#"),
    Prefix("ischart", "http://resource.geosciml.org/classifier/ics/ischart/"),
    Prefix("sdo", "https://schema.org/"),
    Prefix("gts", "http://resource.geosciml.org/ontology/timescale/gts#")
  ]

  const Directive: string := "@prefix"

  // ---------------------------------------------------------------------
  // The declaration test
  // ---------------------------------------------------------------------

  /** The regular expression `@prefix\s+key:` with the `i` flag matches `text`
      at position `i`, its `\s+` taking `n` characters. */
  ghost predicate MatchesWith(text: string, key: string, i: nat, n: nat) {
    && n >= 1
    && MatchesAt(text, i, Directive)
    && i + |Directive| + n <= |text|
    && (forall k :: i + |Directive| <= k < i + |Directive| + n ==> IsWhitespace(text[k]))
    && MatchesAt(text, i + |Directive| + n, key + ":")
  }

  /** RegExp.prototype.test for that expression. */
  ghost predicate RegexTest(text: string, key: string) {
    exists i: nat, n: nat :: MatchesWith(text, key, i, n)
  }

  /** The same match found directly: the directive, then white space taken
      as far as it goes, then the key and a colon. */
  predicate DeclaredAt(text: string, key: string, i: nat) {
    && MatchesAt(text, i, Directive)
    && i + |Directive| < |text|
    && IsWhitespace(text[i + |Directive|])
    && MatchesAt(text, SkipWhitespace(text, i + |Directive|), key + ":")
  }

  /** `text` declares the prefix `key`. */
  predicate Declares(text: string, key: string) {
    exists i :: 0 <= i < |text| && DeclaredAt(text, key, i)
  }

  /** A key that starts with a character other than white space. */
  predicate PlainKey(key: string) {
    key != [] && !IsWhitespace(key[0])
  }

  /** Skipping white space from `j` stops at the first character after a run. */
  lemma {:induction false} SkipRun(text: string, j: nat, m: nat)
    requires j <= m < |text|
    requires forall k :: j <= k < m ==> IsWhitespace(text[k])
    requires !IsWhitespace(text[m])
    ensures SkipWhitespace(text, j) == m
    decreases m - j
  {
    if j < m {
      SkipRun(text, j + 1, m);
    }
  }

  /** Taking white space greedily loses no match, because a plain key cannot
      begin inside the white space: the direct test is the regular expression's. */
  lemma DeclaresIffRegex(text: string, key: string)
    requires PlainKey(key)
    ensures Declares(text, key) <==> RegexTest(text, key)
  {
    if Declares(text, key) {
      DeclaredMatches(text, key);
    }
    if RegexTest(text, key) {
      RegexDeclares(text, key);
    }
  }

  /** A direct declaration is a match of the regular expression. */
  lemma DeclaredMatches(text: string, key: string)
    requires Declares(text, key)
    ensures RegexTest(text, key)
  {
    var d := |Directive|;
    var i :| 0 <= i < |text| && DeclaredAt(text, key, i);
    var m := SkipWhitespace(text, i + d);
    assert MatchesWith(text, key, i, m - (i + d));
  }

  /** A match of the regular expression is found directly, for a plain key. */
  lemma RegexDeclares(text: string, key: string)
    requires PlainKey(key) && RegexTest(text, key)
    ensures Declares(text, key)
  {
    var d := |Directive|;
    var i: nat, n: nat :| MatchesWith(text, key, i, n);
    var m := i + d + n;
    assert LowerAscii(text[m]) == LowerAscii((key + ":")[0]);
    FoldedBlank(text[m], (key + ":")[0]);
    SkipRun(text, i + d, m);
    assert DeclaredAt(text, key, i);
  }

  /** A match inside a piece of a longer text is a match of the longer text. */
  lemma RegexEmbedded(small: string, big: string, a: nat, key: string, i: nat, n: nat)
    requires a + |small| <= |big| && big[a..a + |small|] == small
    requires MatchesWith(small, key, i, n)
    ensures MatchesWith(big, key, a + i, n)
  {
    var d := |Directive|;
    forall k | 0 <= k < |small|
      ensures big[a + k] == small[k]
    {
      assert big[a..a + |small|][k] == small[k];
    }
  }

  // ---------------------------------------------------------------------
  // The repair
  // ---------------------------------------------------------------------

  /** The line declaring one prefix: `@prefix key: <iri> .` */
  function Line(p: Prefix): string {
    Directive + " " + p.key + ": <" + p.iri + "> ."
  }

  /** The lines of `ps` joined by newlines. */
  function Block(ps: seq<Prefix>): string {
    if ps == [] then ""
    else if |ps| == 1 then Line(ps[0])
    else Block(ps[..|ps| - 1]) + "\n" + Line(ps[|ps| - 1])
  }

  /** The prefixes of `ps` the text does not declare, in order. */
  function Undeclared(ps: seq<Prefix>, text: string): seq<Prefix> {
    Filter(ps, (p: Prefix) => !Declares(text, p.key))
  }

  /** The text unchanged when it declares every prefix of `ps`, else the block
      of missing declarations, a blank line, and the text. */
  function Repair(ps: seq<Prefix>, text: string): string {
    var missing := Undeclared(ps, text);
    if missing == [] then text else Block(missing) + "\n\n" + text
  }

  /** ensurePrefixes. */
  function WithPrefixes(text: string): string {
    Repair(Required, text)
  }

  /** The loop of ensurePrefixes that collects the undeclared prefixes. */
  method CollectMissing(ps: seq<Prefix>, text: string) returns (missing: seq<Prefix>)
    ensures missing == Undeclared(ps, text)
  {
    missing := [];
    for i := 0 to |ps|
      invariant missing == Undeclared(ps[..i], text)
    {
      assert ps[..i + 1][..i] == ps[..i];
      if !Declares(text, ps[i].key) {
        missing := missing + [ps[i]];
      }
    }
    assert ps[..|ps|] == ps;
  }

  /** ensurePrefixes as written: the missing prefixes, then their joined lines
      in front of the text. */
  method EnsurePrefixes(text: string) returns (r: string)
    ensures r == WithPrefixes(text)
  {
    var missing := CollectMissing(Required, text);
    if |missing| == 0 {
      return text;
    }
    return Block(missing) + "\n\n" + text;
  }

  // ---------------------------------------------------------------------
  // Properties
  // ---------------------------------------------------------------------

  /** Each line of a block appears in it whole, at the offset returned. */
  lemma {:induction false} LineInBlock(ps: seq<Prefix>, j: nat) returns (o: nat)
    requires j < |ps|
    ensures o + |Line(ps[j])| <= |Block(ps)| && Block(ps)[o..o + |Line(ps[j])|] == Line(ps[j])
  {
    var line := Line(ps[j]);
    if |ps| == 1 {
      o := 0;
      assert Block(ps)[0..|line|] == line;
    } else if j == |ps| - 1 {
      var head := Block(ps[..|ps| - 1]) + "\n";
      o := |head|;
      assert Block(ps) == head + line;
      assert Block(ps)[|head|..|head| + |line|] == line;
    } else {
      var init := ps[..|ps| - 1];
      assert init[j] == ps[j];
      o := LineInBlock(init, j);
      var rest := "\n" + Line(ps[|ps| - 1]);
      assert Block(ps) == Block(init) + rest;
      assert Block(ps)[o..o + |line|] == Block(init)[o..o + |line|];
    }
  }

  /** A declaration line declares its own prefix. */
  lemma LineDeclares(p: Prefix)
    ensures MatchesWith(Line(p), p.key, 0, 1)
  {
    var line := Line(p);
    assert line == Directive + [' '] + (p.key + ":") + " <" + p.iri + "> .";
    assert IsWhitespace(line[|Directive|]);
    forall k | 0 <= k < |p.key + ":"|
      ensures line[|Directive| + 1 + k] == (p.key + ":")[k]
    {
    }
  }

  /** A prefix the text declares is still declared once lines are put in
      front of it. */
  lemma DeclaredAfterHead(head: string, text: string, key: string)
    requires PlainKey(key) && Declares(text, key)
    ensures Declares(head + text, key)
  {
    DeclaresIffRegex(text, key);
    var i: nat, n: nat :| MatchesWith(text, key, i, n);
    assert (head + text)[|head|..|head| + |text|] == text;
    RegexEmbedded(text, head + text, |head|, key, i, n);
    MatchDeclares(head + text, key, |head| + i, n);
  }

  /** A slice inside the first part of a concatenation is a slice of that part. */
  lemma SliceOfFront(a: string, b: string, o: nat, len: nat)
    requires o + len <= |a|
    ensures (a + b)[o..o + len] == a[o..o + len]
  {
  }

  /** The line of missing[j] appears whole in the repaired text, at the
      offset returned. */
  lemma LineInRepaired(missing: seq<Prefix>, j: nat, text: string) returns (o: nat)
    requires j < |missing|
    ensures var r := Block(missing) + "\n\n" + text;
      o + |Line(missing[j])| <= |r| && r[o..o + |Line(missing[j])|] == Line(missing[j])
  {
    var block := Block(missing);
    var line := Line(missing[j]);
    o := LineInBlock(missing, j);
    SliceOfFront(block, "\n\n" + text, o, |line|);
    assert block + "\n\n" + text == block + ("\n\n" + text);
  }

  /** A match of the regular expression is a declaration. */
  lemma MatchDeclares(text: string, key: string, i: nat, n: nat)
    requires PlainKey(key) && MatchesWith(text, key, i, n)
    ensures Declares(text, key)
  {
    DeclaresIffRegex(text, key);
  }

  /** A prefix with a line in the block is declared by the repaired text. */
  lemma DeclaredByBlock(missing: seq<Prefix>, j: nat, text: string, r: string)
    requires j < |missing| && PlainKey(missing[j].key)
    requires r == Block(missing) + "\n\n" + text
    ensures Declares(r, missing[j].key)
  {
    var o := LineInRepaired(missing, j, text);
    LineDeclares(missing[j]);
    DeclaredByPiece(r, Line(missing[j]), o, missing[j].key);
  }

  /** A text declares a key when a piece of it does so from its first character. */
  lemma DeclaredByPiece(r: string, piece: string, o: nat, key: string)
    requires PlainKey(key) && o + |piece| <= |r| && r[o..o + |piece|] == piece
    requires MatchesWith(piece, key, 0, 1)
    ensures Declares(r, key)
  {
    RegexEmbedded(piece, r, o, key, 0, 1);
    MatchDeclares(r, key, o, 1);
  }

  /** After the repair the text declares every prefix of `ps` with a plain
      key: the ones it declared already are still declared further down, the
      others by their new line. */
  lemma RepairDeclaresAll(ps: seq<Prefix>, text: string, p: Prefix)
    requires p in ps && PlainKey(p.key)
    ensures Declares(Repair(ps, text), p.key)
  {
    var missing := Undeclared(ps, text);
    FilterMembers(ps, (q: Prefix) => !Declares(text, q.key), p);
    if Declares(text, p.key) {
      if missing != [] {
        DeclaredAfterHead(Block(missing) + "\n\n", text, p.key);
        assert Repair(ps, text) == (Block(missing) + "\n\n") + text;
      }
    } else {
      var j :| 0 <= j < |missing| && missing[j] == p;
      DeclaredByBlock(missing, j, text, Repair(ps, text));
    }
  }

  /** Nothing is missing from a text that declares every prefix of `ps`. */
  lemma {:induction false} NoneMissing(ps: seq<Prefix>, text: string)
    requires forall p :: p in ps ==> Declares(text, p.key)
    ensures Undeclared(ps, text) == []
  {
    if ps != [] {
      var init := ps[..|ps| - 1];
      assert forall p :: p in init ==> p in ps;
      NoneMissing(init, text);
      assert ps[|ps| - 1] in ps;
    }
  }

  /** The repair is idempotent, and it only ever adds lines in front: the
      original text is the tail of the result, untouched when it declares
      every prefix of `ps` already. */
  lemma RepairIdempotent(ps: seq<Prefix>, text: string)
    requires forall p :: p in ps ==> PlainKey(p.key)
    ensures Repair(ps, Repair(ps, text)) == Repair(ps, text)
    ensures var r := Repair(ps, text);
      |text| <= |r| && r[|r| - |text|..] == text
    ensures (forall p :: p in ps ==> Declares(text, p.key)) ==> Repair(ps, text) == text
  {
    forall p | p in ps
      ensures Declares(Repair(ps, text), p.key)
    {
      RepairDeclaresAll(ps, text, p);
    }
    NoneMissing(ps, Repair(ps, text));
    if forall p :: p in ps ==> Declares(text, p.key) {
      NoneMissing(ps, text);
    }
  }

  /** No required key starts with white space: each starts with a lower-case letter. */
  lemma RequiredKeysPlain()
    ensures forall p :: p in Required ==> PlainKey(p.key)
  {
    forall p | p in Required
      ensures PlainKey(p.key)
    {
      assert p.key != [] && 'a' <= p.key[0] <= 'z';
    }
  }

  /** After ensurePrefixes the text declares every required prefix. */
  lemma WithPrefixesDeclaresAll(text: string, p: Prefix)
    requires p in Required
    ensures Declares(WithPrefixes(text), p.key)
  {
    RequiredKeysPlain();
    RepairDeclaresAll(Required, text, p);
  }

  /** ensurePrefixes is idempotent, and it only ever adds lines in front: the
      original text is the tail of the result, untouched when it declares
      every required prefix already. */
  lemma WithPrefixesIdempotent(text: string)
    ensures WithPrefixes(WithPrefixes(text)) == WithPrefixes(text)
    ensures var r := WithPrefixes(text);
      |text| <= |r| && r[|r| - |text|..] == text
    ensures (forall p :: p in Required ==> Declares(text, p.key)) ==> WithPrefixes(text) == text
  {
    RequiredKeysPlain();
    RepairIdempotent(Required, text);
  }

  /** A required prefix gets a new line exactly when the text does not
      declare it. */
  lemma MissingExact(text: string, p: Prefix)
    ensures p in Undeclared(Required, text) <==> p in Required && !Declares(text, p.key)
  {
    FilterMembers(Required, (q: Prefix) => !Declares(text, q.key), p);
  }
}
