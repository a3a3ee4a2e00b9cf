/**
  The triples an R2RML mapping prints for a row, and the proof that the N-Triples tokenizer
  reads them back.
  */
module R2rml {
  import opened Prelude
  import opened Percent
  import opened Template
  import opened NTriples

  // ------------------------------------------------------------------------------
  // Printed terms
  // ------------------------------------------------------------------------------

  datatype Term = Iri(content: string) | Literal(value: string)

  function Printed(t: Term): string {
    match t
    case Iri(content) => "<" + content + ">"
    case Literal(value) => "\"" + Escape(value) + "\""
  }

  datatype Triple = Triple(s: Term, p: Term, o: Term)

  function Body(t: Triple): string {
    Printed(t.s) + (" " + (Printed(t.p) + (" " + Printed(t.o))))
  }

  function Line(t: Triple): string {
    Body(t) + " .\n"
  }

  /** An IRI without '>' and of at most 4096 bytes; any literal. */
  predicate Readable(t: Term) {
    t.Iri? ==> '>' !in t.content && |Utf8(t.content)| <= 4096
  }

  // ------------------------------------------------------------------------------
  // Trimming a printed line
  // ------------------------------------------------------------------------------

  lemma TrimmedLine(x: string)
    requires x != "" && !White(x[0]) && !White(x[|x| - 1]) && x[|x| - 1] != '.'
    ensures Statement(x + " .\n") == x
  {
    var line := x + " .\n";
    assert TrimStart(line) == line;
    assert line[..|line| - 1] == x + " .";
    assert TrimEnd(x + " .") == x + " .";
    assert TrimEnd(line) == x + " .";
    assert (x + " .")[..|x| + 1] == x + " ";
    assert TrimDots(x + " ") == x + " ";
    assert TrimDots(x + " .") == x + " ";
    assert TrimStart(x + " ") == x + " ";
    assert (x + " ")[..|x|] == x;
    assert TrimEnd(x) == x;
  }

  lemma BodyEnds(t: Triple)
    ensures var x := Body(t); x != "" && !White(x[0]) && !White(x[|x| - 1]) && x[|x| - 1] != '.'
  {
  }

  // ------------------------------------------------------------------------------
  // Reading one printed term
  // ------------------------------------------------------------------------------

  lemma {:induction false} IriEndOf(c: string, rest: string, bytes: nat)
    ensures '>' !in c ==> IriEnd(c + (">" + rest), bytes) == if bytes + |Utf8(c)| <= 4097 then Some(|c| + 1) else None
    ensures '>' in c ==> IriEnd(c + (">" + rest), bytes).None? || IriEnd(c + (">" + rest), bytes).value <= |c|
    decreases |c|
  {
    var s := c + (">" + rest);
    if c == "" {
      assert s[0] == '>';
    } else {
      IriEndOf(c[1..], rest, bytes + |CharBytes(c[0])|);
      assert s[0] == c[0] && s[1..] == c[1..] + (">" + rest);
      assert '>' in c <==> c[0] == '>' || '>' in c[1..];
    }
  }

  lemma LiteralEndFirst(c: char, rest: string)
    ensures LiteralEnd(EscapeChar(c) + rest, false) == |EscapeChar(c)| + LiteralEnd(rest, false)
  {
  }

  lemma {:induction false} LiteralEndOf(v: string, rest: string)
    ensures LiteralEnd(Escape(v) + ("\"" + rest), false) == |Escape(v)| + 1
    decreases |v|
  {
    if v == "" {
      assert Escape(v) + ("\"" + rest) == "\"" + rest;
    } else {
      LiteralEndOf(v[1..], rest);
      LiteralEndFirst(v[0], Escape(v[1..]) + ("\"" + rest));
      assert Escape(v) + ("\"" + rest) == EscapeChar(v[0]) + (Escape(v[1..]) + ("\"" + rest));
    }
  }

  /** What follows a printed term on its line. */
  predicate TermEnds(rest: string) {
    rest == "" || rest[0] == ' '
  }

  predicate StartsWith(ts: Option<seq<string>>, term: string) {
    ts.Some? && ts.value != [] && ts.value[0] == term
  }

  lemma ReadIriBack(c: string, rest: string, k: nat, alnum: char -> bool)
    requires k > 0
    ensures var text := Printed(Iri(c));
            if Readable(Iri(c)) then Terms(text + rest, k, alnum) == Cons(text, Terms(rest, k - 1, alnum))
            else !StartsWith(Terms(text + rest, k, alnum), text)
  {
    var text := Printed(Iri(c));
    var s := text + rest;
    assert s[0] == '<' && s[1..] == c + (">" + rest);
    IriEndOf(c, rest, 1);
    IriTerm(s, 0, k, alnum);
    assert s[0..] == s;
    match IriEnd(s[1..], 1)
    case None =>
    case Some(n) =>
      if Readable(Iri(c)) {
        assert s[0..n + 1] == text && s[n + 1..] == rest;
      } else {
        assert |s[0..n + 1]| < |text|;
      }
  }

  lemma ReadLiteralBack(v: string, rest: string, k: nat, alnum: char -> bool)
    requires k > 0 && TermEnds(rest) && !alnum(' ')
    ensures var text := Printed(Literal(v));
            Terms(text + rest, k, alnum) == Cons(text, Terms(rest, k - 1, alnum))
  {
    var text := Printed(Literal(v));
    var s := text + rest;
    assert s[0] == '"' && s[1..] == Escape(v) + ("\"" + rest);
    LiteralEndOf(v, rest);
    LiteralSpan(s, 0, alnum);
    LiteralTerm(s, 0, k, alnum);
    assert s[0..] == s && s[|text|..] == rest && s[0..|text|] == text;
    assert SuffixEnd(rest, alnum) == 0;
  }

  lemma ReadBack(t: Term, rest: string, k: nat, alnum: char -> bool)
    requires k > 0 && TermEnds(rest) && !alnum(' ')
    ensures Readable(t) ==> Terms(Printed(t) + rest, k, alnum) == Cons(Printed(t), Terms(rest, k - 1, alnum))
    ensures !Readable(t) ==> !StartsWith(Terms(Printed(t) + rest, k, alnum), Printed(t))
  {
    match t
    case Iri(c) => ReadIriBack(c, rest, k, alnum);
    case Literal(v) => ReadLiteralBack(v, rest, k, alnum);
  }

  lemma SpaceSkipped(rest: string, k: nat, alnum: char -> bool)
    requires k > 0
    ensures Terms(" " + rest, k, alnum) == Terms(rest, k, alnum)
  {
  }

  // ------------------------------------------------------------------------------
  // Reading a printed line
  // ------------------------------------------------------------------------------

  lemma LastTermReads(o: Term, alnum: char -> bool)
    requires !alnum(' ')
    ensures Readable(o) ==> Terms(Printed(o), 1, alnum) == Some([Printed(o)])
    ensures !Readable(o) ==> !StartsWith(Terms(Printed(o), 1, alnum), Printed(o))
  {
    ReadBack(o, "", 1, alnum);
    assert Printed(o) + "" == Printed(o);
    assert Terms("", 0, alnum) == Some([]) && [Printed(o)] + [] == [Printed(o)];
  }

  lemma LastTwoRead(p: Term, o: Term, alnum: char -> bool)
    requires !alnum(' ')
    ensures var text := Printed(p) + (" " + Printed(o));
            Terms(text, 2, alnum) == Some([Printed(p), Printed(o)]) <==> Readable(p) && Readable(o)
  {
    ReadBack(p, " " + Printed(o), 2, alnum);
    SpaceSkipped(Printed(o), 1, alnum);
    LastTermReads(o, alnum);
    ConsOfOne(Printed(p), Printed(o), Terms(Printed(o), 1, alnum));
  }

  lemma ConsOfOne(a: string, b: string, rest: Option<seq<string>>)
    ensures Cons(a, rest) == Some([a, b]) <==> rest == Some([b])
  {
    assert [a] + [b] == [a, b];
    if Cons(a, rest) == Some([a, b]) {
      assert rest.value == ([a] + rest.value)[1..] == [a, b][1..] == [b];
    }
  }

  lemma AllThreeRead(t: Triple, alnum: char -> bool)
    requires !alnum(' ')
    ensures Terms(Body(t), 3, alnum) == Some([Printed(t.s), Printed(t.p), Printed(t.o)])
       <==> Readable(t.s) && Readable(t.p) && Readable(t.o)
  {
    var rest := Printed(t.p) + (" " + Printed(t.o));
    ReadBack(t.s, " " + rest, 3, alnum);
    SpaceSkipped(rest, 2, alnum);
    LastTwoRead(t.p, t.o, alnum);
    ConsOfTwo(Printed(t.s), Printed(t.p), Printed(t.o), Terms(rest, 2, alnum));
  }

  lemma ConsOfTwo(a: string, b: string, c: string, rest: Option<seq<string>>)
    ensures Cons(a, rest) == Some([a, b, c]) <==> rest == Some([b, c])
  {
    assert [a] + [b, c] == [a, b, c];
    if Cons(a, rest) == Some([a, b, c]) {
      assert rest.value == ([a] + rest.value)[1..] == [a, b, c][1..] == [b, c];
    }
  }

  /** A printed line is read back as its three terms exactly when every IRI is readable. */
  lemma LineReadsBackExactlyWhen(t: Triple, alnum: char -> bool)
    requires !alnum(' ')
    ensures Parsed(Line(t), alnum) == Some((Printed(t.s), Printed(t.p), Printed(t.o)))
       <==> Readable(t.s) && Readable(t.p) && Readable(t.o)
  {
    BodyEnds(t);
    TrimmedLine(Body(t));
    AllThreeRead(t, alnum);
    var ts := Terms(Body(t), 3, alnum);
    if ts.Some? && |ts.value| == 3 {
      assert ts.value == [ts.value[0], ts.value[1], ts.value[2]];
    }
  }

  // ------------------------------------------------------------------------------
  // Reading terms of every form
  // ------------------------------------------------------------------------------

  /** An IRI, a literal with a language tag or a datatype, or a blank node. */
  datatype Token = IriToken(iri: string) | LiteralToken(value: string, tag: string, typed: Option<string>) | BlankToken(id: string)

  function TokenText(t: Token): string {
    match t
    case IriToken(iri) => "<" + iri + ">"
    case LiteralToken(v, tag, typed) => "\"" + (Escape(v) + ("\"" + Suffix(tag, typed)))
    case BlankToken(id) => "_" + id
  }

  function Suffix(tag: string, typed: Option<string>): string {
    tag + match typed case None => "" case Some(iri) => "<" + iri + ">"
  }

  predicate TagChar(c: char, alnum: char -> bool) {
    c == '^' || c == '@' || c == '-' || c == '_' || alnum(c)
  }

  predicate WellFormed(t: Token, alnum: char -> bool) {
    match t
    case IriToken(iri) => '>' !in iri && |Utf8(iri)| <= 4096
    case LiteralToken(_, tag, typed) => (forall c :: c in tag ==> TagChar(c, alnum)) && (typed.Some? ==> '>' !in typed.value)
    case BlankToken(id) => ' ' !in id && '\t' !in id
  }

  lemma {:induction false} AngleEndOf(iri: string, rest: string)
    requires '>' !in iri
    ensures AngleEnd(iri + (">" + rest)) == |iri| + 1
  {
    var s := iri + (">" + rest);
    if iri != "" {
      AngleEndOf(iri[1..], rest);
      assert s[0] == iri[0] && s[1..] == iri[1..] + (">" + rest);
    }
  }

  lemma {:induction false} SuffixEndOf(tag: string, typed: Option<string>, rest: string, alnum: char -> bool)
    requires (forall c :: c in tag ==> TagChar(c, alnum)) && (typed.Some? ==> '>' !in typed.value)
    requires TermEnds(rest) && !alnum(' ') && !alnum('<')
    ensures SuffixEnd(Suffix(tag, typed) + rest, alnum) == |Suffix(tag, typed)|
    decreases |tag|
  {
    var s := Suffix(tag, typed) + rest;
    if tag != "" {
      SuffixEndOf(tag[1..], typed, rest, alnum);
      assert s[0] == tag[0] && tag[0] in tag && s[1..] == Suffix(tag[1..], typed) + rest;
    } else if typed.Some? {
      AngleEndOf(typed.value, rest);
      assert s[0] == '<' && s[1..] == typed.value + (">" + rest);
    } else {
      assert s == rest;
    }
  }

  lemma {:induction false} BlankEndOf(id: string, rest: string)
    requires ' ' !in id && '\t' !in id && TermEnds(rest)
    ensures BlankEnd(id + rest) == |id|
  {
    var s := id + rest;
    if id == "" {
      assert s == rest;
    } else {
      BlankEndOf(id[1..], rest);
      assert s[0] == id[0] && s[1..] == id[1..] + rest;
    }
  }

  lemma TaggedReads(v: string, tag: string, typed: Option<string>, rest: string, k: nat, alnum: char -> bool)
    requires k > 0 && WellFormed(LiteralToken(v, tag, typed), alnum) && TermEnds(rest) && !alnum(' ') && !alnum('<')
    ensures var text := TokenText(LiteralToken(v, tag, typed));
            Terms(text + rest, k, alnum) == Cons(text, Terms(rest, k - 1, alnum))
  {
    var text := TokenText(LiteralToken(v, tag, typed));
    var quoted, suffix := Escape(v), Suffix(tag, typed);
    var s, after := text + rest, suffix + rest;
    TaggedText(quoted, suffix, rest, text, s);
    LiteralEndOf(v, after);
    SuffixEndOf(tag, typed, rest, alnum);
    LiteralSpan(s, 0, alnum);
    LiteralTerm(s, 0, k, alnum);
    assert s[0..] == s;
  }

  lemma TaggedText(quoted: string, suffix: string, rest: string, text: string, s: string)
    requires text == "\"" + (quoted + ("\"" + suffix)) && s == text + rest
    ensures s != "" && s[0] == '"' && s[1..] == quoted + ("\"" + (suffix + rest)) && |text| == |quoted| + 2 + |suffix|
    ensures s[|quoted| + 2..] == suffix + rest && s[|text|..] == rest && s[0..|text|] == text
  {
  }

  lemma BlankReads(id: string, rest: string, k: nat, alnum: char -> bool)
    requires k > 0 && WellFormed(BlankToken(id), alnum) && TermEnds(rest)
    ensures var text := TokenText(BlankToken(id));
            Terms(text + rest, k, alnum) == Cons(text, Terms(rest, k - 1, alnum))
  {
    var text := TokenText(BlankToken(id));
    var s := text + rest;
    assert s[1..] == id + rest;
    BlankEndOf(id, rest);
    BlankTerm(s, 0, k, alnum);
    assert s[0..] == s && s[0..|text|] == text;
    if rest == "" {
      assert s[|text|..] == rest;
    } else {
      assert s[|text| + 1..] == rest[1..] && rest == " " + rest[1..];
      if k > 1 {
        SpaceSkipped(rest[1..], k - 1, alnum);
      }
    }
  }

  /** A well-formed term followed by a space or nothing is read as that term, and reading goes on behind it. */
  lemma TokenReadsBack(t: Token, rest: string, k: nat, alnum: char -> bool)
    requires k > 0 && WellFormed(t, alnum) && TermEnds(rest) && !alnum(' ') && !alnum('<')
    ensures Terms(TokenText(t) + rest, k, alnum) == Cons(TokenText(t), Terms(rest, k - 1, alnum))
  {
    match t
    case IriToken(iri) => ReadIriBack(iri, rest, k, alnum);
    case LiteralToken(v, tag, typed) => TaggedReads(v, tag, typed, rest, k, alnum);
    case BlankToken(id) => BlankReads(id, rest, k, alnum);
  }

  function TokensBody(a: Token, b: Token, c: Token): string {
    TokenText(a) + (" " + (TokenText(b) + (" " + TokenText(c))))
  }

  lemma LastTokenReads(c: Token, alnum: char -> bool)
    requires WellFormed(c, alnum) && !alnum(' ') && !alnum('<')
    ensures Terms(TokenText(c), 1, alnum) == Some([TokenText(c)])
  {
    TokenReadsBack(c, "", 1, alnum);
    assert TokenText(c) + "" == TokenText(c);
    assert Terms("", 0, alnum) == Some([]) && [TokenText(c)] + [] == [TokenText(c)];
  }

  /** A statement of three well-formed terms is read back as these terms. */
  lemma StatementReadsBack(a: Token, b: Token, c: Token, alnum: char -> bool)
    requires WellFormed(a, alnum) && WellFormed(b, alnum) && WellFormed(c, alnum) && !alnum(' ') && !alnum('<')
    requires var last := TokenText(c)[|TokenText(c)| - 1]; !White(last) && last != '.'
    ensures Parsed(TokensBody(a, b, c) + " .\n", alnum) == Some((TokenText(a), TokenText(b), TokenText(c)))
  {
    var body := TokensBody(a, b, c);
    BodyOfTokens(TokenText(a), TokenText(b), TokenText(c));
    TrimmedLine(body);
    TokensRead(a, b, c, alnum);
  }

  lemma BodyOfTokens(x: string, y: string, z: string)
    requires x != "" && z != ""
    ensures var body := x + (" " + (y + (" " + z))); body[0] == x[0] && body[|body| - 1] == z[|z| - 1]
  {
  }

  lemma TokensRead(a: Token, b: Token, c: Token, alnum: char -> bool)
    requires WellFormed(a, alnum) && WellFormed(b, alnum) && WellFormed(c, alnum) && !alnum(' ') && !alnum('<')
    ensures Terms(TokensBody(a, b, c), 3, alnum) == Some([TokenText(a), TokenText(b), TokenText(c)])
  {
    var x, y, z := TokenText(a), TokenText(b), TokenText(c);
    var rest := y + (" " + z);
    TokenReadsBack(a, " " + rest, 3, alnum);
    SpaceSkipped(rest, 2, alnum);
    TokenReadsBack(b, " " + z, 2, alnum);
    SpaceSkipped(z, 1, alnum);
    LastTokenReads(c, alnum);
    ConsOfOne(y, z, Terms(z, 1, alnum));
    ConsOfTwo(x, y, z, Terms(rest, 2, alnum));
  }

  /** The text of a term determines the term. */
  lemma PrintedIsInjective(t: Term, u: Term)
    ensures Printed(t) == Printed(u) <==> t == u
  {
    if Printed(t) == Printed(u) {
      assert Printed(t)[0] == Printed(u)[0];
      match t
      case Iri(c) => assert c == Printed(t)[1..|c| + 1] && u.content == Printed(u)[1..|u.content| + 1];
      case Literal(v) =>
        assert Escape(v) == Printed(t)[1..|Escape(v)| + 1] && Escape(u.value) == Printed(u)[1..|Escape(u.value)| + 1];
        EscapeRoundTrip(v);
        EscapeRoundTrip(u.value);
    }
  }

  // ------------------------------------------------------------------------------
  // Rows
  // ------------------------------------------------------------------------------

  datatype Subject = FromTemplate(template: string) | FromColumn(column: string, iri: bool) | Constant(constant: string) | NoSubject

  datatype PredicateObject = PredicateObject(pred: string, spec: string, literal: bool)

  datatype Mapping = Mapping(subject: Subject, classes: seq<string>, poms: seq<PredicateObject>)

  type Row = map<string, string>

  const RDF_TYPE := "http://www.w3.org/1999/02/22-rdf-syntax-ns#type"

  function Value(row: Row, column: string): string {
    if column in row then row[column] else ""
  }

  function SubjectTerm(subject: Subject, row: Row): Term
    requires !subject.NoSubject?
  {
    match subject
    case FromTemplate(t) => Iri(Substituted(t, row))
    case FromColumn(c, iri) => if iri then Iri(EncodeValue(Value(row, c))) else Literal(Value(row, c))
    case Constant(c) => Iri(c)
  }

  function ObjectTerm(pom: PredicateObject, row: Row): Term {
    if '{' in pom.spec then
      var expanded := Substituted(pom.spec, row);
      if pom.literal then Literal(expanded) else Iri(expanded)
    else if pom.spec in row then
      if pom.literal then Literal(row[pom.spec]) else Iri(EncodeValue(row[pom.spec]))
    else if pom.literal then Literal(pom.spec) else Iri(pom.spec)
  }

  function ClassTriples(s: Term, classes: seq<string>): seq<Triple> {
    seq(|classes|, i requires 0 <= i < |classes| => Triple(s, Iri(RDF_TYPE), Iri(classes[i])))
  }

  function PomTriples(s: Term, poms: seq<PredicateObject>, row: Row): seq<Triple> {
    seq(|poms|, i requires 0 <= i < |poms| => Triple(s, Iri(poms[i].pred), ObjectTerm(poms[i], row)))
  }

  /** The triples of a row, classes first. */
  function RowTriples(m: Mapping, row: Row): seq<Triple> {
    if m.subject.NoSubject? then []
    else
      var s := SubjectTerm(m.subject, row);
      ClassTriples(s, m.classes) + PomTriples(s, m.poms, row)
  }

  /** The term a row gives for a specification: a template, a column, or itself. */
  ghost predicate Says(t: Term, spec: string, literal: bool, row: Row) {
    && (t.Literal? <==> literal)
    && if '{' in spec then (if literal then t.value else t.content) == Substituted(spec, row)
       else if spec !in row then (if literal then t.value else t.content) == spec
       else if literal then t.value == row[spec]
       else DecodeBytes(t.content) == Some(Utf8(row[spec]))
  }

  /**
    Which term stands where: for each class a type triple and then for each pair a triple with
    its predicate, all about one subject; columns are percent-encoded in IRIs and nowhere else.
    */
  lemma RowTriplesSay(m: Mapping, row: Row)
    requires !m.subject.NoSubject?
    ensures var ts, n := RowTriples(m, row), |m.classes|;
            && |ts| == n + |m.poms|
            && (forall i, j :: 0 <= i < |ts| && 0 <= j < |ts| ==> ts[i].s == ts[j].s)
            && (forall i :: 0 <= i < n ==>
                  ts[i].p == Iri("http://www.w3.org/1999/02/22-rdf-syntax-ns#type") && ts[i].o == Iri(m.classes[i]))
            && (forall i :: 0 <= i < |m.poms| ==>
                  ts[n + i].p == Iri(m.poms[i].pred) && Says(ts[n + i].o, m.poms[i].spec, m.poms[i].literal, row))
    ensures forall t :: t in RowTriples(m, row) ==>
              match m.subject
              case FromTemplate(x) => t.s == Iri(Substituted(x, row))
              case Constant(x) => t.s == Iri(x)
              case FromColumn(c, iri) =>
                var v := if c in row then row[c] else "";
                if iri then t.s.Iri? && DecodeBytes(t.s.content) == Some(Utf8(v)) else t.s == Literal(v)
              case NoSubject => false
  {
    forall v: string
      ensures DecodeBytes(EncodeValue(v)) == Some(Utf8(v))
    {
      PercentRoundTrip(v);
    }
  }

  function Flatten(ss: seq<string>): string {
    if ss == [] then "" else Flatten(ss[..|ss| - 1]) + ss[|ss| - 1]
  }

  function Map<A, B>(f: A -> B, s: seq<A>): seq<B> {
    seq(|s|, i requires 0 <= i < |s| => f(s[i]))
  }

  function Lines(ts: seq<Triple>): string {
    Flatten(Map(Line, ts))
  }

  predicate FlatMapping(m: Mapping) {
    && (m.subject.FromTemplate? ==> NotNested(m.subject.template))
    && forall i :: 0 <= i < |m.poms| ==> NotNested(m.poms[i].spec)
  }

  method PrintSubject(subject: Subject, row: Row) returns (text: string)
    requires !subject.NoSubject?
    ensures (forall k :: k in row ==> BraceFree(k)) && (subject.FromTemplate? ==> NotNested(subject.template)) ==>
              text == Printed(SubjectTerm(subject, row))
  {
    match subject
    case FromTemplate(t) =>
      var expanded := ApplyTemplate(t, row);
      text := "<" + expanded + ">";
    case FromColumn(c, iri) =>
      if iri {
        var encoded := PercentEncode(Value(row, c));
        text := "<" + encoded + ">";
      } else {
        var escaped := EscapeLiteral(Value(row, c));
        text := "\"" + escaped + "\"";
      }
    case Constant(c) =>
      text := "<" + c + ">";
  }

  method PrintObject(pom: PredicateObject, row: Row) returns (text: string)
    ensures (forall k :: k in row ==> BraceFree(k)) && NotNested(pom.spec) ==> text == Printed(ObjectTerm(pom, row))
  {
    if '{' in pom.spec {
      var expanded := ApplyTemplate(pom.spec, row);
      if pom.literal {
        var escaped := EscapeLiteral(expanded);
        text := "\"" + escaped + "\"";
      } else {
        text := "<" + expanded + ">";
      }
    } else if pom.literal {
      var escaped := EscapeLiteral(if pom.spec in row then row[pom.spec] else pom.spec);
      text := "\"" + escaped + "\"";
    } else if pom.spec in row {
      var encoded := PercentEncode(row[pom.spec]);
      text := "<" + encoded + ">";
    } else {
      text := "<" + pom.spec + ">";
    }
  }

  lemma LineText(t: Triple)
    ensures Printed(t.s) + " " + Printed(t.p) + " " + Printed(t.o) + " .\n" == Line(t)
  {
  }

  lemma {:induction false} FlattenConcat(a: seq<string>, b: seq<string>)
    ensures Flatten(a + b) == Flatten(a) + Flatten(b)
  {
    if b == [] {
      assert a + b == a;
    } else {
      var n := |b| - 1;
      FlattenConcat(a, b[..n]);
      assert (a + b)[..|a + b| - 1] == a + b[..n];
    }
  }

  lemma MapConcat<A, B>(f: A -> B, a: seq<A>, b: seq<A>)
    ensures Map(f, a + b) == Map(f, a) + Map(f, b)
  {
  }

  lemma MapStep<A, B>(f: A -> B, s: seq<A>, i: nat)
    requires i < |s|
    ensures Map(f, s[..i + 1]) == Map(f, s[..i]) + [f(s[i])]
  {
  }

  lemma FlattenAppend(ss: seq<string>, x: string)
    ensures Flatten(ss + [x]) == Flatten(ss) + x
  {
  }

  lemma LinesConcat(a: seq<Triple>, b: seq<Triple>)
    ensures Lines(a + b) == Lines(a) + Lines(b)
  {
    MapConcat(Line, a, b);
    FlattenConcat(Map(Line, a), Map(Line, b));
  }

  lemma LinesStep(ts: seq<Triple>, i: nat)
    requires i < |ts|
    ensures Lines(ts[..i + 1]) == Lines(ts[..i]) + Line(ts[i])
  {
    MapStep(Line, ts, i);
    FlattenAppend(Map(Line, ts[..i]), Line(ts[i]));
  }

  method PrintClasses(subj: string, classes: seq<string>, ghost s: Term) returns (buf: string)
    ensures subj == Printed(s) ==> buf == Lines(ClassTriples(s, classes))
  {
    buf := "";
    ghost var ts := ClassTriples(s, classes);
    for i := 0 to |classes|
      invariant subj == Printed(s) ==> buf == Lines(ts[..i])
    {
      LinesStep(ts, i);
      LineText(ts[i]);
      buf := buf + (subj + " " + ("<" + RDF_TYPE + ">") + " " + ("<" + classes[i] + ">") + " .\n");
    }
    assert ts[..|classes|] == ts;
  }

  method PrintPoms(subj: string, poms: seq<PredicateObject>, row: Row, ghost s: Term) returns (buf: string)
    ensures && subj == Printed(s) && (forall k :: k in row ==> BraceFree(k))
            && (forall i :: 0 <= i < |poms| ==> NotNested(poms[i].spec)) ==>
              buf == Lines(PomTriples(s, poms, row))
  {
    buf := "";
    ghost var ts := PomTriples(s, poms, row);
    ghost var flat := && subj == Printed(s) && (forall k :: k in row ==> BraceFree(k))
                      && forall i :: 0 <= i < |poms| ==> NotNested(poms[i].spec);
    for i := 0 to |poms|
      invariant flat ==> buf == Lines(ts[..i])
    {
      LinesStep(ts, i);
      LineText(ts[i]);
      var obj := PrintObject(poms[i], row);
      buf := buf + (subj + " " + ("<" + poms[i].pred + ">") + " " + obj + " .\n");
    }
    assert ts[..|poms|] == ts;
  }

  /** The loop that prints a row. */
  method PrintRow(m: Mapping, row: Row) returns (buf: string)
    ensures FlatMapping(m) && (forall k :: k in row ==> BraceFree(k)) ==> buf == Lines(RowTriples(m, row))
  {
    if m.subject.NoSubject? {
      return "";
    }
    var subj := PrintSubject(m.subject, row);
    ghost var s := SubjectTerm(m.subject, row);
    var classes := PrintClasses(subj, m.classes, s);
    var poms := PrintPoms(subj, m.poms, row, s);
    LinesConcat(ClassTriples(s, m.classes), PomTriples(s, m.poms, row));
    buf := classes + poms;
  }

  // ------------------------------------------------------------------------------
  // Reading a printed row
  // ------------------------------------------------------------------------------

  predicate Ended(line: string) {
    line != "" && line[|line| - 1] == '\n'
  }

  function AddChar(lines: seq<string>, c: char): seq<string> {
    if lines != [] && !Ended(lines[|lines| - 1]) then lines[..|lines| - 1] + [lines[|lines| - 1] + [c]] else lines + [[c]]
  }

  /** A text cut after every line break. */
  function SplitLines(s: string): seq<string> {
    if s == "" then [] else AddChar(SplitLines(s[..|s| - 1]), s[|s| - 1])
  }

  predicate AllEnded(lines: seq<string>) {
    lines != [] ==> Ended(lines[|lines| - 1])
  }

  lemma AddToOpenLine(lines: seq<string>, x: string, c: char)
    requires !Ended(x)
    ensures AddChar(lines + [x], c) == lines + [x + [c]]
  {
  }

  lemma SplitOneMore(s: string, x: string, c: char)
    ensures SplitLines(s + (x + [c])) == AddChar(SplitLines(s + x), c)
  {
    var t := s + (x + [c]);
    assert t[..|t| - 1] == s + x && t[|t| - 1] == c;
  }

  /** Text without a line break, added to whole lines, is one more line. */
  lemma {:induction false} SplitAppend(s: string, x: string)
    requires AllEnded(SplitLines(s)) && '\n' !in x && x != ""
    ensures SplitLines(s + x) == SplitLines(s) + [x]
  {
    var n := |x| - 1;
    assert x == x[..n] + [x[n]];
    SplitOneMore(s, x[..n], x[n]);
    if n == 0 {
      assert s + x[..0] == s && x == [x[0]];
    } else {
      SplitAppend(s, x[..n]);
      assert !Ended(x[..n]);
      AddToOpenLine(SplitLines(s), x[..n], x[n]);
    }
  }

  lemma SplitWholeLine(s: string, x: string)
    requires AllEnded(SplitLines(s)) && '\n' !in x && x != ""
    ensures SplitLines(s + (x + "\n")) == SplitLines(s) + [x + "\n"]
  {
    SplitAppend(s, x);
    SplitOneMore(s, x, '\n');
    assert x[|x| - 1] in x;
    AddToOpenLine(SplitLines(s), x, '\n');
  }

  predicate OneLine(t: Term) {
    t.Iri? ==> '\n' !in t.content
  }

  lemma BodyOneLine(t: Triple)
    requires OneLine(t.s) && OneLine(t.p) && OneLine(t.o)
    ensures '\n' !in Body(t) + " ." && Line(t) == (Body(t) + " .") + "\n"
  {
    PrintedOneLine(t.s);
    PrintedOneLine(t.p);
    PrintedOneLine(t.o);
  }

  lemma SplitOneMoreLine(s: string, t: Triple)
    requires AllEnded(SplitLines(s)) && OneLine(t.s) && OneLine(t.p) && OneLine(t.o)
    ensures SplitLines(s + Line(t)) == SplitLines(s) + [Line(t)] && Ended(Line(t))
  {
    BodyOneLine(t);
    SplitWholeLine(s, Body(t) + " .");
  }

  lemma {:induction false} LinesSplit(ts: seq<Triple>)
    requires forall i :: 0 <= i < |ts| ==> OneLine(ts[i].s) && OneLine(ts[i].p) && OneLine(ts[i].o)
    ensures SplitLines(Lines(ts)) == Map(Line, ts) && AllEnded(Map(Line, ts))
  {
    if ts != [] {
      var n := |ts| - 1;
      LinesSplit(ts[..n]);
      LinesStep(ts, n);
      assert ts[..n + 1] == ts;
      SplitOneMoreLine(Lines(ts[..n]), ts[n]);
      MapStep(Line, ts, n);
    }
  }

  lemma PrintedOneLine(t: Term)
    requires OneLine(t)
    ensures '\n' !in Printed(t)
  {
    if t.Literal? {
      EscapedHasNoBreak(t.value);
    }
  }

  /** Every triple of a printed row is read back from its own line, in order. */
  lemma RowReadsBack(m: Mapping, row: Row, alnum: char -> bool)
    requires !alnum(' ')
    requires forall t :: t in RowTriples(m, row) ==> OneLine(t.s) && OneLine(t.p) && OneLine(t.o)
    requires forall t :: t in RowTriples(m, row) ==> Readable(t.s) && Readable(t.p) && Readable(t.o)
    ensures var ts := RowTriples(m, row);
            var lines := SplitLines(Lines(ts));
            |lines| == |ts| && forall i :: 0 <= i < |ts| ==>
              Parsed(lines[i], alnum) == Some((Printed(ts[i].s), Printed(ts[i].p), Printed(ts[i].o)))
  {
    var ts := RowTriples(m, row);
    LinesSplit(ts);
    forall i | 0 <= i < |ts|
      ensures Parsed(SplitLines(Lines(ts))[i], alnum) == Some((Printed(ts[i].s), Printed(ts[i].p), Printed(ts[i].o)))
    {
      assert ts[i] in ts;
      LineReadsBackExactlyWhen(ts[i], alnum);
    }
  }

  /** Column values never make an IRI unreadable by their characters: only the template's own text can. */
  lemma {:induction false} RenderedIsClean(ps: seq<Piece>, row: Row, c: char)
    requires !PlainChar(c) && c != '%' && c !in Render(ps, map[])
    ensures c !in Render(ps, row)
  {
    if ps != [] {
      assert Render(ps, map[]) == RenderPiece(ps[0], map[]) + Render(ps[1..], map[]);
      RenderedIsClean(ps[1..], row, c);
      match ps[0]
      case Text(x) =>
      case Slot(name) =>
        if name in row {
          EncodedIsClean(Utf8(row[name]));
        }
    }
  }

  lemma SubstitutedIsClean(template: string, row: Row)
    ensures '>' in Substituted(template, row) ==> '>' in template
    ensures '\n' in Substituted(template, row) ==> '\n' in template
  {
    RenderOfPieces(template);
    if '>' !in template {
      RenderedIsClean(Pieces(template), row, '>');
    }
    if '\n' !in template {
      RenderedIsClean(Pieces(template), row, '\n');
    }
  }
}
