/**
  Template expansion: every `{column}` of a template is replaced by the percent-encoded value
  of that column, one column after the other, in an order nobody fixes.
  */
module Template {
  import opened Percent

  /** Replaces the occurrences of `pattern`, from left to right and without overlaps. */
  function Replace(s: string, pattern: string, value: string): string
    requires pattern != ""
    decreases |s|
  {
    if s == "" then ""
    else if pattern <= s then value + Replace(s[|pattern|..], pattern, value)
    else [s[0]] + Replace(s[1..], pattern, value)
  }

  function Braced(name: string): string {
    "{" + name + "}"
  }

  predicate BraceFree(s: string) {
    '{' !in s && '}' !in s
  }

  // ------------------------------------------------------------------------------
  // Templates as pieces
  // ------------------------------------------------------------------------------

  datatype Piece = Text(c: char) | Slot(name: string)

  /** Where the next brace stands. */
  function NextBrace(s: string): nat {
    if s == "" || s[0] == '{' || s[0] == '}' then 0 else 1 + NextBrace(s[1..])
  }

  lemma {:induction false} NextBraceIsFirst(s: string)
    ensures NextBrace(s) <= |s| && BraceFree(s[..NextBrace(s)])
    ensures NextBrace(s) < |s| ==> s[NextBrace(s)] == '{' || s[NextBrace(s)] == '}'
  {
    if !(s == "" || s[0] == '{' || s[0] == '}') {
      NextBraceIsFirst(s[1..]);
      assert s[..NextBrace(s)] == [s[0]] + s[1..][..NextBrace(s[1..])];
    }
  }

  /** A placeholder is an opening brace whose next brace closes it. */
  function Pieces(s: string): seq<Piece>
    decreases |s|
  {
    if s == "" then []
    else
      var n := NextBrace(s[1..]);
      NextBraceIsFirst(s[1..]);
      if s[0] == '{' && n < |s[1..]| && s[1..][n] == '}' then [Slot(s[1..][..n])] + Pieces(s[1..][n + 1..])
      else [Text(s[0])] + Pieces(s[1..])
  }

  /** Simultaneous substitution; a placeholder without a value stays. */
  function RenderPiece(p: Piece, env: map<string, string>): string {
    match p
    case Text(c) => [c]
    case Slot(name) => if name in env then EncodeValue(env[name]) else Braced(name)
  }

  function Render(ps: seq<Piece>, env: map<string, string>): string {
    if ps == [] then "" else RenderPiece(ps[0], env) + Render(ps[1..], env)
  }

  function Substituted(template: string, env: map<string, string>): string {
    Render(Pieces(template), env)
  }

  /** No unmatched opening brace meets an unmatched closing one before the next opening one. */
  predicate Flat(ps: seq<Piece>, open: bool) {
    ps == [] ||
    match ps[0]
    case Slot(name) => BraceFree(name) && Flat(ps[1..], open)
    case Text(c) => if c == '{' then Flat(ps[1..], true)
                    else if c == '}' then !open && Flat(ps[1..], false)
                    else Flat(ps[1..], open)
  }

  /** The placeholders are not nested in other braces. */
  predicate NotNested(template: string) {
    Flat(Pieces(template), false)
  }

  lemma RenderCons(p: Piece, ps: seq<Piece>, env: map<string, string>)
    ensures Render([p] + ps, env) == RenderPiece(p, env) + Render(ps, env)
  {
  }

  lemma PiecesOfSlot(s: string, n: nat)
    requires n + 1 < |s| && s[0] == '{' && s[n + 1] == '}' && NextBrace(s[1..]) == n
    ensures Pieces(s) == [Slot(s[1..n + 1])] + Pieces(s[n + 2..])
  {
    var t := s[1..];
    assert t[n] == '}' && t[n + 1..] == s[n + 2..] && t[..n] == s[1..n + 1];
  }

  lemma SlotText(s: string, n: nat)
    requires n + 1 < |s| && s[0] == '{' && s[n + 1] == '}'
    ensures s == Braced(s[1..n + 1]) + s[n + 2..]
  {
  }

  lemma {:induction false} RenderOfPieces(s: string)
    ensures Render(Pieces(s), map[]) == s
    decreases |s|
  {
    if s != "" {
      var t := s[1..];
      var n := NextBrace(t);
      NextBraceIsFirst(t);
      if s[0] == '{' && n < |t| && t[n] == '}' {
        RenderOfPieces(s[n + 2..]);
        PiecesOfSlot(s, n);
        RenderCons(Slot(s[1..n + 1]), Pieces(s[n + 2..]), map[]);
        SlotText(s, n);
      } else {
        RenderOfPieces(t);
        assert Pieces(s) == [Text(s[0])] + Pieces(t);
        RenderCons(Text(s[0]), Pieces(t), map[]);
      }
    }
  }

  // ------------------------------------------------------------------------------
  // One replacement
  // ------------------------------------------------------------------------------

  /** Text without an opening brace is passed over. */
  lemma {:induction false} ReplacePasses(a: string, s: string, name: string, value: string)
    requires '{' !in a
    ensures Replace(a + s, Braced(name), value) == a + Replace(s, Braced(name), value)
    decreases |a|
  {
    if a == "" {
      assert a + s == s;
    } else {
      assert (a + s)[0] == a[0] && (a + s)[1..] == a[1..] + s;
      assert !(Braced(name) <= a + s) by {
        assert Braced(name)[0] == '{';
      }
      ReplacePasses(a[1..], s, name, value);
    }
  }

  lemma {:induction false} EncodedHasNoBrace(v: string)
    ensures BraceFree(EncodeValue(v))
  {
    EncodedIsClean(Utf8(v));
    assert !PlainChar('{') && !PlainChar('}');
  }

  /** Two different braced names do not match each other. */
  lemma BracedMatch(a: string, b: string, s: string)
    requires BraceFree(a) && BraceFree(b)
    ensures Braced(a) <= Braced(b) + s <==> a == b
  {
    var x, y := Braced(a), Braced(b) + s;
    assert x[|a| + 1] == '}' && y[|b| + 1] == '}';
    if |a| < |b| {
      assert y[|a| + 1] == b[|a|];
    } else if |a| > |b| {
      assert x[|b| + 1] == a[|b|];
    } else if x <= y {
      assert a == x[1..|a| + 1] && b == y[1..|b| + 1];
    }
  }

  lemma NotPrefix(pat: string, whole: string, n: nat)
    requires n <= |pat| && n <= |whole| && (pat[..n] != whole[..n] || !(pat[n..] <= whole[n..]))
    ensures !(pat <= whole)
  {
  }

  /** After an unmatched opening brace the next brace of the rendered text is an opening one. */
  lemma {:induction false} NoCloseAhead(ps: seq<Piece>, env: map<string, string>, name: string)
    requires Flat(ps, true) && BraceFree(name)
    ensures !(name + "}" <= Render(ps, env))
    decreases |ps|, |name|
  {
    if ps != [] {
      var head, r := RenderPiece(ps[0], env), Render(ps[1..], env);
      var whole := Render(ps, env);
      var pat := name + "}";
      assert whole[..|head|] == head && whole[|head|..] == r;
      if ps[0].Slot? && ps[0].name !in env {
        assert whole[0] == '{' && pat[0] != '{';
      } else {
        if ps[0].Slot? {
          EncodedHasNoBrace(env[ps[0].name]);
        }
        if |name| < |head| {
          assert whole[|name|] == head[|name|] && pat[|name|] == '}';
        } else {
          if ps[0] == Text('{') {
            assert name[..1][0] == name[0] && name[0] in name && head[0] == '{';
          } else {
            NoCloseAhead(ps[1..], env, name[|head|..]);
          }
          assert pat[|head|..] == name[|head|..] + "}" && pat[..|head|] == name[..|head|];
          NotPrefix(pat, whole, |head|);
        }
      }
    }
  }

  lemma ReplaceAtText(c: char, r: string, col: string, value: string)
    requires c == '{' ==> !(col + "}" <= r)
    ensures Replace([c] + r, Braced(col), value) == [c] + Replace(r, Braced(col), value)
  {
    if c == '{' {
      assert col + "}" == Braced(col)[1..] && r == ([c] + r)[1..];
      assert !(Braced(col) <= [c] + r);
    } else {
      ReplacePasses([c], r, col, value);
    }
  }

  lemma ReplaceAtSlot(n: string, r: string, col: string, value: string)
    requires BraceFree(n) && BraceFree(col)
    ensures Replace(Braced(n) + r, Braced(col), value)
         == (if n == col then value else Braced(n)) + Replace(r, Braced(col), value)
  {
    BracedMatch(col, n, r);
    var s := Braced(n) + r;
    if n == col {
      assert s[|Braced(col)|..] == r;
    } else {
      assert s[0] == '{' && s[1..] == (n + "}") + r;
      ReplacePasses(n + "}", r, col, value);
      assert Braced(n) == ['{'] + (n + "}");
    }
  }

  /** Replacing one more column in a partly substituted template substitutes that column. */
  lemma {:induction false} ReplaceSubstitutes(ps: seq<Piece>, env: map<string, string>, col: string, v: string, open: bool)
    requires Flat(ps, open) && BraceFree(col) && col !in env
    ensures Replace(Render(ps, env), Braced(col), EncodeValue(v)) == Render(ps, env[col := v])
    decreases |ps|
  {
    if ps != [] {
      var r := Render(ps[1..], env);
      match ps[0] {
        case Text(c) =>
          ReplaceSubstitutes(ps[1..], env, col, v, if c == '{' then true else if c == '}' then false else open);
          if c == '{' {
            NoCloseAhead(ps[1..], env, col);
          }
          ReplaceAtText(c, r, col, EncodeValue(v));
        case Slot(n) =>
          ReplaceSubstitutes(ps[1..], env, col, v, open);
          if n in env {
            EncodedHasNoBrace(env[n]);
            ReplacePasses(EncodeValue(env[n]), r, col, EncodeValue(v));
          } else {
            ReplaceAtSlot(n, r, col, EncodeValue(v));
          }
      }
    }
  }

  // ------------------------------------------------------------------------------
  // All replacements
  // ------------------------------------------------------------------------------

  /** The columns replaced in a given order. */
  function ReplaceInOrder(template: string, env: map<string, string>, order: seq<string>): string
    requires forall k :: k in order ==> k in env
  {
    if order == [] then template
    else
      var n := |order| - 1;
      Replace(ReplaceInOrder(template, env, order[..n]), Braced(order[n]), EncodeValue(env[order[n]]))
  }

  ghost predicate IsOrder(env: map<string, string>, order: seq<string>) {
    && (forall k :: k in order <==> k in env)
    && forall i, j :: 0 <= i < j < |order| ==> order[i] != order[j]
  }

  function Restrict(env: map<string, string>, keys: seq<string>): map<string, string> {
    map k | k in keys && k in env :: env[k]
  }

  lemma RestrictGrows(env: map<string, string>, order: seq<string>, n: nat)
    requires IsOrder(env, order) && 0 < n <= |order|
    ensures var col := order[n - 1];
            && col in env && col !in Restrict(env, order[..n - 1])
            && Restrict(env, order[..n]) == Restrict(env, order[..n - 1])[col := env[col]]
  {
  }

  lemma ReplaceOneMore(template: string, env: map<string, string>, order: seq<string>, n: nat)
    requires IsOrder(env, order) && 0 < n <= |order| && order[n - 1] in env
    ensures ReplaceInOrder(template, env, order[..n])
         == Replace(ReplaceInOrder(template, env, order[..n - 1]), Braced(order[n - 1]), EncodeValue(env[order[n - 1]]))
  {
    assert order[..n][..n - 1] == order[..n - 1];
  }

  lemma {:induction false} OrderedPrefix(template: string, env: map<string, string>, order: seq<string>, n: nat)
    requires NotNested(template) && IsOrder(env, order) && n <= |order|
    requires forall k :: k in env ==> BraceFree(k)
    ensures ReplaceInOrder(template, env, order[..n]) == Substituted(template, Restrict(env, order[..n]))
  {
    if n == 0 {
      RenderOfPieces(template);
      assert Restrict(env, order[..0]) == map[];
    } else {
      OrderedPrefix(template, env, order, n - 1);
      RestrictGrows(env, order, n);
      ReplaceOneMore(template, env, order, n);
      var col := order[n - 1];
      ReplaceSubstitutes(Pieces(template), Restrict(env, order[..n - 1]), col, env[col], false);
    }
  }

  /** For brace-free column names and placeholders that are not nested, every order gives the simultaneous substitution. */
  lemma OrderDoesNotMatter(template: string, env: map<string, string>, order: seq<string>)
    requires NotNested(template) && IsOrder(env, order)
    requires forall k :: k in env ==> BraceFree(k)
    ensures ReplaceInOrder(template, env, order) == Substituted(template, env)
  {
    OrderedPrefix(template, env, order, |order|);
    assert order[..|order|] == order;
    assert Restrict(env, order) == env;
  }

  /** The loop over the columns takes them as they come. */
  method ApplyTemplate(template: string, env: map<string, string>) returns (result: string)
    ensures exists order :: IsOrder(env, order) && result == ReplaceInOrder(template, env, order)
    ensures NotNested(template) && (forall k :: k in env ==> BraceFree(k)) ==> result == Substituted(template, env)
  {
    result := template;
    var left := env.Keys;
    ghost var order: seq<string> := [];
    while left != {}
      invariant left <= env.Keys
      invariant forall k :: k in order <==> k in env && k !in left
      invariant forall i, j :: 0 <= i < j < |order| ==> order[i] != order[j]
      invariant result == ReplaceInOrder(template, env, order)
    {
      var col :| col in left;
      var encoded := PercentEncode(env[col]);
      result := Replace(result, "{" + col + "}", encoded);
      left := left - {col};
      assert (order + [col])[..|order|] == order;
      order := order + [col];
    }
    assert IsOrder(env, order);
    if NotNested(template) && (forall k :: k in env ==> BraceFree(k)) {
      OrderDoesNotMatter(template, env, order);
    }
  }

  // ------------------------------------------------------------------------------
  // Nested placeholders
  // ------------------------------------------------------------------------------

  /** Read as a whole, no placeholder stands at an unmatched opening brace. */
  predicate Unclosed(ps: seq<Piece>) {
    ps == [] || ps[0].Slot? || ps[0].c == '{' || (ps[0].c != '}' && Unclosed(ps[1..]))
  }

  predicate Canonical(ps: seq<Piece>) {
    ps == [] ||
    (&& (ps[0].Slot? ==> BraceFree(ps[0].name))
     && (ps[0] == Text('{') ==> Unclosed(ps[1..]))
     && Canonical(ps[1..]))
  }

  lemma {:induction false} PiecesUnclosed(t: string)
    requires NextBrace(t) >= |t| || t[NextBrace(t)] == '{'
    ensures Unclosed(Pieces(t))
    decreases |t|
  {
    NextBraceIsFirst(t);
    if t != "" && t[0] != '{' && t[0] != '}' {
      PiecesUnclosed(t[1..]);
      assert Pieces(t)[1..] == Pieces(t[1..]);
    }
  }

  lemma {:induction false} PiecesCanonical(s: string)
    ensures Canonical(Pieces(s))
    decreases |s|
  {
    if s != "" {
      var t := s[1..];
      var n := NextBrace(t);
      NextBraceIsFirst(t);
      if s[0] == '{' && n < |t| && t[n] == '}' {
        PiecesCanonical(t[n + 1..]);
        assert Pieces(s)[1..] == Pieces(t[n + 1..]);
      } else {
        PiecesCanonical(t);
        assert Pieces(s)[1..] == Pieces(t);
        if s[0] == '{' {
          PiecesUnclosed(t);
        }
      }
    }
  }

  /** Every value is so long that no name of a column can contain it. */
  predicate LongValues(env: map<string, string>, limit: nat) {
    forall k :: k in env ==> |EncodeValue(env[k])| > limit
  }

  lemma {:induction false} LongValuesKeepApart(ps: seq<Piece>, env: map<string, string>, name: string, limit: nat)
    requires Unclosed(ps) && BraceFree(name) && LongValues(env, limit) && |name| <= limit
    ensures !(name + "}" <= Render(ps, env))
    decreases |ps|
  {
    var pat := name + "}";
    if ps != [] {
      var whole := Render(ps, env);
      match ps[0] {
        case Text(c) =>
          assert whole[0] == c && whole[1..] == Render(ps[1..], env);
          if name != "" && c != '{' {
            LongValuesKeepApart(ps[1..], env, name[1..], limit);
            assert pat[1..] == name[1..] + "}";
          }
        case Slot(n) =>
          if n in env {
            EncodedHasNoBrace(env[n]);
            assert whole[|name|] == EncodeValue(env[n])[|name|] && pat[|name|] == '}';
          } else {
            assert whole[0] == '{' && pat[0] != '{';
          }
      }
    }
  }

  lemma {:induction false} ReplaceSubstitutesLong(ps: seq<Piece>, env: map<string, string>, col: string, v: string, limit: nat)
    requires Canonical(ps) && BraceFree(col) && col !in env && LongValues(env, limit) && |col| <= limit
    ensures Replace(Render(ps, env), Braced(col), EncodeValue(v)) == Render(ps, env[col := v])
    decreases |ps|
  {
    if ps != [] {
      var r := Render(ps[1..], env);
      ReplaceSubstitutesLong(ps[1..], env, col, v, limit);
      match ps[0] {
        case Text(c) =>
          if c == '{' {
            LongValuesKeepApart(ps[1..], env, col, limit);
          }
          ReplaceAtText(c, r, col, EncodeValue(v));
        case Slot(n) =>
          if n in env {
            EncodedHasNoBrace(env[n]);
            ReplacePasses(EncodeValue(env[n]), r, col, EncodeValue(v));
          } else {
            ReplaceAtSlot(n, r, col, EncodeValue(v));
          }
      }
    }
  }

  // A nested placeholder leaves, once filled in, a new braced name in the text.

  predicate Closes(ps: seq<Piece>) {
    ps != [] && (ps[0].Slot? || ps[0].c != '{') && (ps[0] == Text('}') || Closes(ps[1..]))
  }

  lemma {:induction false} NestedCloses(ps: seq<Piece>)
    requires Canonical(ps) && !Flat(ps, true)
    ensures Closes(ps) || !Flat(ps, false)
  {
    if ps[0] != Text('}') && ps[0] != Text('{') {
      NestedCloses(ps[1..]);
    }
  }

  function Names(ps: seq<Piece>): set<string> {
    if ps == [] then {} else (if ps[0].Slot? then {ps[0].name} else {}) + Names(ps[1..])
  }

  /** The rendered text up to the closing brace. */
  function Formed(ps: seq<Piece>, env: map<string, string>): string
    requires Closes(ps)
  {
    if ps[0] == Text('}') then "" else RenderPiece(ps[0], env) + Formed(ps[1..], env)
  }

  lemma {:induction false} FormedName(ps: seq<Piece>, env: map<string, string>, limit: nat)
    requires Closes(ps) && Canonical(ps) && Names(ps) <= env.Keys && LongValues(env, limit)
    ensures BraceFree(Formed(ps, env)) && Formed(ps, env) + "}" <= Render(ps, env)
    ensures Unclosed(ps) ==> |Formed(ps, env)| > limit
    decreases |ps|
  {
    var k, whole := Formed(ps, env), Render(ps, env);
    if ps[0] == Text('}') {
      assert whole[0] == '}';
    } else {
      FormedName(ps[1..], env, limit);
      if ps[0].Slot? {
        EncodedHasNoBrace(env[ps[0].name]);
      }
      assert whole == RenderPiece(ps[0], env) + Render(ps[1..], env);
    }
  }

  lemma {:induction false} NestedForms(ps: seq<Piece>, env: map<string, string>, limit: nat) returns (i: nat, k: string)
    requires Canonical(ps) && !Flat(ps, false) && Names(ps) <= env.Keys && LongValues(env, limit)
    ensures BraceFree(k) && |k| > limit
    ensures i <= |Render(ps, env)| && Braced(k) <= Render(ps, env)[i..]
    decreases |ps|
  {
    var whole, rest := Render(ps, env), Render(ps[1..], env);
    var p := RenderPiece(ps[0], env);
    assert whole == p + rest;
    if ps[0] == Text('{') && Closes(ps[1..]) {
      i, k := 0, Formed(ps[1..], env);
      FormedName(ps[1..], env, limit);
      assert Braced(k) == p + (k + "}");
    } else {
      if ps[0] == Text('{') {
        NestedCloses(ps[1..]);
      }
      i, k := NestedForms(ps[1..], env, limit);
      assert whole[|p| + i..] == rest[i..];
      i := |p| + i;
    }
  }

  lemma {:induction false} ReplaceByNothing(s: string, k: string, i: nat)
    requires i <= |s| && Braced(k) <= s[i..]
    ensures |Replace(s, Braced(k), "")| < |s|
    decreases |s|
  {
    var pattern := Braced(k);
    if pattern <= s {
      ReplaceNeverGrows(s[|pattern|..], k);
    } else {
      assert s[0..] == s;
      assert s[i..] == s[1..][i - 1..];
      ReplaceByNothing(s[1..], k, i - 1);
    }
  }

  lemma {:induction false} ReplaceNeverGrows(s: string, k: string)
    ensures |Replace(s, Braced(k), "")| <= |s|
    decreases |s|
  {
    if s != "" {
      var pattern := Braced(k);
      if pattern <= s {
        ReplaceNeverGrows(s[|pattern|..], k);
      } else {
        ReplaceNeverGrows(s[1..], k);
      }
    }
  }

  // The columns that show it: every placeholder gets a long value, and one column the formed name.

  lemma Listing(names: set<string>) returns (order: seq<string>)
    ensures forall k :: k in order <==> k in names
    ensures forall i, j :: 0 <= i < j < |order| ==> order[i] != order[j]
  {
    if k :| k in names {
      var rest := Listing(names - {k});
      order := rest + [k];
    } else {
      order := [];
    }
  }

  lemma {:induction false} NamesAreShort(s: string)
    ensures forall k :: k in Names(Pieces(s)) ==> |k| <= |s| && BraceFree(k)
    decreases |s|
  {
    if s != "" {
      var t := s[1..];
      var n := NextBrace(t);
      NextBraceIsFirst(t);
      if s[0] == '{' && n < |t| && t[n] == '}' {
        NamesAreShort(t[n + 1..]);
        assert Pieces(s)[1..] == Pieces(t[n + 1..]);
      } else {
        NamesAreShort(t);
        assert Pieces(s)[1..] == Pieces(t);
      }
    }
  }

  /** Filling in columns with long values never completes the name of another of them. */
  lemma {:induction false} LongPrefix(template: string, env: map<string, string>, order: seq<string>, n: nat)
    requires IsOrder(env, order) && n <= |order| && LongValues(env, |template|)
    requires forall k :: k in env ==> BraceFree(k) && |k| <= |template|
    ensures ReplaceInOrder(template, env, order[..n]) == Substituted(template, Restrict(env, order[..n]))
  {
    if n == 0 {
      RenderOfPieces(template);
      assert Restrict(env, order[..0]) == map[];
    } else {
      LongPrefix(template, env, order, n - 1);
      RestrictGrows(env, order, n);
      ReplaceOneMore(template, env, order, n);
      var col := order[n - 1];
      PiecesCanonical(template);
      ReplaceSubstitutesLong(Pieces(template), Restrict(env, order[..n - 1]), col, env[col], |template|);
    }
  }

  lemma {:induction false} RenderIgnores(ps: seq<Piece>, env: map<string, string>, k: string, v: string)
    requires k !in Names(ps)
    ensures Render(ps, env[k := v]) == Render(ps, env)
  {
    if ps != [] {
      RenderIgnores(ps[1..], env, k, v);
    }
  }

  lemma {:induction false} ReplaceSameColumns(template: string, env: map<string, string>, env': map<string, string>, order: seq<string>)
    requires forall k :: k in order ==> k in env && k in env' && env[k] == env'[k]
    ensures ReplaceInOrder(template, env, order) == ReplaceInOrder(template, env', order)
  {
    if order != [] {
      ReplaceSameColumns(template, env, env', order[..|order| - 1]);
    }
  }

  lemma NewColumnLast(template: string, env: map<string, string>, order: seq<string>, k: string)
    requires IsOrder(env, order) && k !in env
    ensures IsOrder(env[k := ""], order + [k])
    ensures ReplaceInOrder(template, env[k := ""], order + [k])
         == Replace(ReplaceInOrder(template, env, order), Braced(k), "")
  {
    var env', order' := env[k := ""], order + [k];
    assert order'[..|order|] == order;
    ReplaceSameColumns(template, env', env, order);
    assert EncodeValue("") == "";
  }

  /** From columns that fill every placeholder with long values, one that breaks the order. */
  lemma NestedBreaks(template: string, env: map<string, string>, order: seq<string>)
    returns (env': map<string, string>, order': seq<string>)
    requires !NotNested(template) && IsOrder(env, order) && env.Keys == Names(Pieces(template))
    requires LongValues(env, |template|)
    ensures IsOrder(env', order') && (forall k :: k in env' ==> BraceFree(k))
    ensures ReplaceInOrder(template, env', order') != Substituted(template, env')
  {
    NamesAreShort(template);
    LongOrder(template, env, order);
    PiecesCanonical(template);
    var i, k := NestedForms(Pieces(template), env, |template|);
    assert k !in env;
    env' := env[k := ""];
    order' := order + [k];
    RenderIgnores(Pieces(template), env, k, "");
    ReplaceByNothing(Substituted(template, env), k, i);
    NewColumnLast(template, env, order, k);
  }

  lemma LongOrder(template: string, env: map<string, string>, order: seq<string>)
    requires IsOrder(env, order) && LongValues(env, |template|)
    requires forall k :: k in env ==> BraceFree(k) && |k| <= |template|
    ensures ReplaceInOrder(template, env, order) == Substituted(template, env)
  {
    LongPrefix(template, env, order, |order|);
    assert order[..|order|] == order && Restrict(env, order) == env;
  }

  /** For brace-free column names every order gives the simultaneous substitution. */
  ghost predicate OrderFree(template: string) {
    forall env, order :: IsOrder(env, order) && (forall k :: k in env ==> BraceFree(k)) ==>
      ReplaceInOrder(template, env, order) == Substituted(template, env)
  }

  /** That holds for a template exactly when its placeholders are not nested. */
  lemma OrderFreeExactlyWhen(template: string)
    ensures OrderFree(template) <==> NotNested(template)
  {
    if NotNested(template) {
      forall env, order | IsOrder(env, order) && forall k :: k in env ==> BraceFree(k)
        ensures ReplaceInOrder(template, env, order) == Substituted(template, env)
      {
        OrderDoesNotMatter(template, env, order);
      }
    } else {
      var v: string := seq(|template| + 1, _ => 'A');
      ValueStaysExactlyWhen(v);
      var env := map k | k in Names(Pieces(template)) :: v;
      var order := Listing(env.Keys);
      var env', order' := NestedBreaks(template, env, order);
    }
  }
}
