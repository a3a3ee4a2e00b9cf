/**
  N-Triples text: the escaping of literals, the printed form of a triple, and the
  hand-written tokenizer that reads a statement back.
  */
module NTriples {
  import opened Prelude
  import opened Percent

  // ------------------------------------------------------------------------------
  // Escaping
  // ------------------------------------------------------------------------------

  function EscapeChar(c: char): string {
    match c
    case '\\' => "\\\\"
    case '"' => "\\\""
    case '\n' => "\\n"
    case '\r' => "\\r"
    case '\t' => "\\t"
    case _ => [c]
  }

  function Escape(s: string): string {
    if s == "" then "" else EscapeChar(s[0]) + Escape(s[1..])
  }

  /** The character an escape stands for, ECHAR of section 7 of RDF 1.1 N-Triples. */
  function Escaped(c: char): Option<char> {
    match c
    case 't' => Some('\t')
    case 'b' => Some(8 as char)
    case 'n' => Some('\n')
    case 'r' => Some('\r')
    case 'f' => Some(12 as char)
    case '"' => Some('"')
    case '\'' => Some('\'')
    case '\\' => Some('\\')
    case _ => None
  }

  function Unescape(s: string): Option<string>
    decreases |s|
  {
    if s == "" then Some("")
    else if s[0] != '\\' then
      match Unescape(s[1..])
      case None => None
      case Some(rest) => Some([s[0]] + rest)
    else if |s| == 1 || Escaped(s[1]).None? then None
    else match Unescape(s[2..])
      case None => None
      case Some(rest) => Some([Escaped(s[1]).value] + rest)
  }

  lemma UnescapePlain(c: char, rest: string)
    requires Unescape(rest).Some? && c != '\\'
    ensures Unescape([c] + rest) == Some([c] + Unescape(rest).value)
  {
  }

  lemma UnescapePair(x: char, rest: string)
    requires Unescape(rest).Some? && Escaped(x).Some?
    ensures Unescape(['\\', x] + rest) == Some([Escaped(x).value] + Unescape(rest).value)
  {
  }

  lemma UnescapeFirst(c: char, rest: string)
    requires Unescape(rest).Some?
    ensures Unescape(EscapeChar(c) + rest) == Some([c] + Unescape(rest).value)
  {
    match c
    case '\\' => UnescapePair('\\', rest);
    case '"' => UnescapePair('"', rest);
    case '\n' => UnescapePair('n', rest);
    case '\r' => UnescapePair('r', rest);
    case '\t' => UnescapePair('t', rest);
    case _ => UnescapePlain(c, rest);
  }

  /** Reading the escapes back gives the value. */
  lemma {:induction false} EscapeRoundTrip(s: string)
    ensures Unescape(Escape(s)) == Some(s)
  {
    if s != "" {
      EscapeRoundTrip(s[1..]);
      UnescapeFirst(s[0], Escape(s[1..]));
      assert s == [s[0]] + s[1..];
    }
  }

  /** An escaped value stays on one line, and in one column. */
  lemma {:induction false} EscapedHasNoBreak(s: string)
    ensures '\n' !in Escape(s) && '\r' !in Escape(s) && '\t' !in Escape(s)
  {
    if s != "" {
      EscapedHasNoBreak(s[1..]);
    }
  }

  predicate NeedsEscape(c: char) {
    c in "\\\"\n\r\t"
  }

  lemma EscapedLength(c: char)
    ensures if NeedsEscape(c) then |EscapeChar(c)| == 2 else EscapeChar(c) == [c]
  {
  }

  lemma EscapeStep(c: char, rest: string)
    requires |Escape(rest)| >= |rest| && (|Escape(rest)| == |rest| ==> Escape(rest) == rest)
    ensures Escape([c] + rest) == EscapeChar(c) + Escape(rest) && |Escape([c] + rest)| >= |rest| + 1
    ensures |Escape([c] + rest)| == |rest| + 1 <==> !NeedsEscape(c) && Escape(rest) == rest
    ensures |Escape([c] + rest)| == |rest| + 1 ==> Escape([c] + rest) == [c] + rest
  {
    EscapedLength(c);
    assert ([c] + rest)[1..] == rest;
  }

  /** Only the five characters that need an escape get one; any other value stays as it is. */
  lemma {:induction false} EscapeStaysExactlyWhen(s: string)
    ensures |Escape(s)| >= |s|
    ensures Escape(s) == s <==> forall i :: 0 <= i < |s| ==> !NeedsEscape(s[i])
    ensures |Escape(s)| == |s| ==> Escape(s) == s
  {
    if s != "" {
      var c, rest := s[0], s[1..];
      EscapeStaysExactlyWhen(rest);
      assert s == [c] + rest;
      EscapeStep(c, rest);
    }
  }

  lemma {:induction false} EscapeAppend(s: string, c: char)
    ensures Escape(s + [c]) == Escape(s) + EscapeChar(c)
  {
    if s == "" {
      assert s + [c] == [c] && [c][1..] == "";
    } else {
      EscapeAppend(s[1..], c);
      assert (s + [c])[1..] == s[1..] + [c];
    }
  }

  method PushEscaped(buffer: string, c: char) returns (out: string)
    ensures out == buffer + EscapeChar(c)
  {
    match c {
      case '\\' => out := buffer + "\\\\";
      case '"' => out := buffer + "\\\"";
      case '\n' => out := buffer + "\\n";
      case '\r' => out := buffer + "\\r";
      case '\t' => out := buffer + "\\t";
      case other => out := buffer + [other];
    }
  }

  method EscapeLiteral(s: string) returns (out: string)
    ensures out == Escape(s)
  {
    out := "";
    for i := 0 to |s|
      invariant out == Escape(s[..i])
    {
      EscapeAppend(s[..i], s[i]);
      assert s[..i + 1] == s[..i] + [s[i]];
      out := PushEscaped(out, s[i]);
    }
    assert s[..|s|] == s;
  }

  // ------------------------------------------------------------------------------
  // Trimming
  // ------------------------------------------------------------------------------

  /** Unicode white space. */
  predicate White(c: char) {
    var n := c as int;
    || 9 <= n <= 13 || n == 0x20 || n == 0x85 || n == 0xA0 || n == 0x1680 || 0x2000 <= n <= 0x200A
    || n == 0x2028 || n == 0x2029 || n == 0x202F || n == 0x205F || n == 0x3000
  }

  function TrimStart(s: string): string {
    if s != "" && White(s[0]) then TrimStart(s[1..]) else s
  }

  function TrimEnd(s: string): string {
    if s != "" && White(s[|s| - 1]) then TrimEnd(s[..|s| - 1]) else s
  }

  function TrimDots(s: string): string {
    if s != "" && s[|s| - 1] == '.' then TrimDots(s[..|s| - 1]) else s
  }

  function Statement(line: string): string {
    TrimEnd(TrimStart(TrimDots(TrimEnd(TrimStart(line)))))
  }

  // ------------------------------------------------------------------------------
  // Tokens
  // ------------------------------------------------------------------------------

  /** Characters up to and including '>'; none when it is missing or too far, counted in bytes. */
  function IriEnd(s: string, bytes: nat): Option<nat> {
    if s == "" || bytes > 4097 then None
    else if s[0] == '>' then Some(1)
    else match IriEnd(s[1..], bytes + |CharBytes(s[0])|)
      case None => None
      case Some(n) => Some(n + 1)
  }

  function LiteralEnd(s: string, escaped: bool): nat {
    if s == "" then 0
    else if escaped then 1 + LiteralEnd(s[1..], false)
    else if s[0] == '\\' then 1 + LiteralEnd(s[1..], true)
    else if s[0] == '"' then 1
    else 1 + LiteralEnd(s[1..], false)
  }

  function AngleEnd(s: string): nat {
    if s == "" then 0 else if s[0] == '>' then 1 else 1 + AngleEnd(s[1..])
  }

  /** The datatype or language tag after a literal. */
  function SuffixEnd(s: string, alnum: char -> bool): nat {
    if s == "" then 0
    else if s[0] == '<' then 1 + AngleEnd(s[1..])
    else if s[0] == '^' || s[0] == '@' || s[0] == '-' || s[0] == '_' || alnum(s[0]) then 1 + SuffixEnd(s[1..], alnum)
    else 0
  }

  function BlankEnd(s: string): nat {
    if s == "" || s[0] == ' ' || s[0] == '\t' then 0 else 1 + BlankEnd(s[1..])
  }

  lemma {:induction false} EndsWithin(s: string, bytes: nat, escaped: bool, alnum: char -> bool)
    ensures IriEnd(s, bytes).Some? ==> 0 < IriEnd(s, bytes).value <= |s|
    ensures LiteralEnd(s, escaped) <= |s| && SuffixEnd(s, alnum) <= |s| && BlankEnd(s) <= |s| && AngleEnd(s) <= |s|
  {
    if s != "" {
      EndsWithin(s[1..], bytes + |CharBytes(s[0])|, !escaped && s[0] == '\\', alnum);
    }
  }

  /** A literal with its quotes and suffix. */
  function LiteralLength(s: string, alnum: char -> bool): nat
    requires s != ""
    ensures 0 < LiteralLength(s, alnum) <= |s|
  {
    EndsWithin(s[1..], 1, false, alnum);
    var n := 1 + LiteralEnd(s[1..], false);
    EndsWithin(s[n..], 1, false, alnum);
    n + SuffixEnd(s[n..], alnum)
  }

  function Cons(term: string, rest: Option<seq<string>>): Option<seq<string>> {
    match rest
    case None => None
    case Some(ts) => Some([term] + ts)
  }

  /** The next `k` terms; characters that start no term are skipped. */
  function Terms(s: string, k: nat, alnum: char -> bool): Option<seq<string>>
    decreases |s|
  {
    if s == "" || k == 0 then Some([])
    else if s[0] == '<' then
      EndsWithin(s[1..], 1, false, alnum);
      match IriEnd(s[1..], 1)
      case None => None
      case Some(n) => Cons(s[..n + 1], Terms(s[n + 1..], k - 1, alnum))
    else if s[0] == '"' then
      var m := LiteralLength(s, alnum);
      Cons(s[..m], Terms(s[m..], k - 1, alnum))
    else if s[0] == '_' then
      EndsWithin(s, 1, false, alnum);
      var n := BlankEnd(s);
      Cons(s[..n], Terms(s[Min(n + 1, |s|)..], k - 1, alnum))
    else Terms(s[1..], k, alnum)
  }

  function Parsed(line: string, alnum: char -> bool): Option<(string, string, string)> {
    match Terms(Statement(line), 3, alnum)
    case None => None
    case Some(ts) => if |ts| == 3 then Some((ts[0], ts[1], ts[2])) else None
  }

  // ------------------------------------------------------------------------------
  // The tokenizer
  // ------------------------------------------------------------------------------

  function Plus(k: nat, n: Option<nat>): Option<nat> {
    match n
    case None => None
    case Some(m) => Some(k + m)
  }

  lemma IriStep(s: string, j: nat, bytes: nat)
    requires j < |s| && bytes <= 4097
    ensures IriEnd(s[j..], bytes) == if s[j] == '>' then Some(1) else Plus(1, IriEnd(s[j + 1..], bytes + |CharBytes(s[j])|))
  {
  }

  /** Reads an IRI from just after its '<'; the result is the position after '>'. */
  method ReadIri(s: string, i: nat) returns (end: Option<nat>)
    requires i <= |s|
    ensures end == Plus(i, IriEnd(s[i..], 1))
  {
    var j: nat, bytes: nat, closed := i, 1, false;
    while j < |s| && !closed
      invariant i <= j <= |s|
      invariant closed ==> Plus(i, IriEnd(s[i..], 1)) == Some(j)
      invariant !closed ==> Plus(i, IriEnd(s[i..], 1)) == Plus(j, IriEnd(s[j..], bytes))
      decreases |s| - j
    {
      if bytes > 4097 {
        return None;
      }
      IriStep(s, j, bytes);
      bytes := bytes + |CharBytes(s[j])|;
      closed := s[j] == '>';
      j := j + 1;
    }
    end := if closed then Some(j) else None;
  }

  lemma LiteralStep(s: string, j: nat, escaped: bool)
    requires j < |s|
    ensures LiteralEnd(s[j..], escaped)
         == if !escaped && s[j] == '"' then 1 else 1 + LiteralEnd(s[j + 1..], !escaped && s[j] == '\\')
  {
  }

  method ReadQuoted(s: string, i: nat) returns (j: nat)
    requires i <= |s|
    ensures j == i + LiteralEnd(s[i..], false)
  {
    j := i;
    var escaped := false;
    while j < |s|
      invariant i <= j <= |s|
      invariant i + LiteralEnd(s[i..], false) == j + LiteralEnd(s[j..], escaped)
    {
      LiteralStep(s, j, escaped);
      var c := s[j];
      j := j + 1;
      if escaped {
        escaped := false;
      } else if c == '\\' {
        escaped := true;
      } else if c == '"' {
        return;
      }
    }
  }

  lemma AngleStep(s: string, j: nat)
    requires j < |s|
    ensures AngleEnd(s[j..]) == if s[j] == '>' then 1 else 1 + AngleEnd(s[j + 1..])
  {
  }

  method ReadAngle(s: string, i: nat) returns (j: nat)
    requires i <= |s|
    ensures j == i + AngleEnd(s[i..])
  {
    j := i;
    while j < |s|
      invariant i <= j <= |s|
      invariant i + AngleEnd(s[i..]) == j + AngleEnd(s[j..])
    {
      AngleStep(s, j);
      j := j + 1;
      if s[j - 1] == '>' {
        return;
      }
    }
  }

  lemma SuffixStep(s: string, j: nat, alnum: char -> bool)
    requires j < |s|
    ensures SuffixEnd(s[j..], alnum)
         == if s[j] == '<' then 1 + AngleEnd(s[j + 1..])
            else if s[j] == '^' || s[j] == '@' || s[j] == '-' || s[j] == '_' || alnum(s[j]) then 1 + SuffixEnd(s[j + 1..], alnum)
            else 0
  {
  }

  method ReadSuffix(s: string, i: nat, alnum: char -> bool) returns (j: nat)
    requires i <= |s|
    ensures j == i + SuffixEnd(s[i..], alnum)
  {
    j := i;
    while j < |s|
      invariant i <= j <= |s|
      invariant i + SuffixEnd(s[i..], alnum) == j + SuffixEnd(s[j..], alnum)
    {
      SuffixStep(s, j, alnum);
      var p := s[j];
      if p == '^' || p == '@' {
        j := j + 1;
      } else if p == '<' {
        j := ReadAngle(s, j + 1);
        return;
      } else if alnum(p) || p == '-' || p == '_' {
        j := j + 1;
      } else {
        return;
      }
    }
  }

  lemma BlankStep(s: string, j: nat)
    requires j < |s|
    ensures BlankEnd(s[j..]) == if s[j] == ' ' || s[j] == '\t' then 0 else 1 + BlankEnd(s[j + 1..])
  {
  }

  method ReadBlank(s: string, i: nat) returns (j: nat)
    requires i <= |s|
    ensures j == i + BlankEnd(s[i..]) && j <= |s|
  {
    j := i;
    while j < |s| && s[j] != ' ' && s[j] != '\t'
      invariant i <= j <= |s|
      invariant i + BlankEnd(s[i..]) == j + BlankEnd(s[j..])
    {
      BlankStep(s, j);
      j := j + 1;
    }
    if j < |s| {
      BlankStep(s, j);
    }
  }

  /** What the terms read so far and those still to come amount to. */
  function Joined(terms: seq<string>, rest: Option<seq<string>>): Option<seq<string>> {
    match rest
    case None => None
    case Some(ts) => Some(terms + ts)
  }

  lemma JoinCons(terms: seq<string>, term: string, rest: Option<seq<string>>)
    ensures Joined(terms, Cons(term, rest)) == Joined(terms + [term], rest)
  {
    if rest.Some? {
      assert terms + ([term] + rest.value) == (terms + [term]) + rest.value;
    }
  }

  lemma IriFirst(t: string, k: nat, alnum: char -> bool)
    requires t != "" && k > 0 && t[0] == '<'
    ensures match IriEnd(t[1..], 1)
            case None => Terms(t, k, alnum) == None
            case Some(n) => 0 < n < |t| && Terms(t, k, alnum) == Cons(t[..n + 1], Terms(t[n + 1..], k - 1, alnum))
  {
    EndsWithin(t[1..], 1, false, alnum);
  }

  lemma IriTerm(s: string, i: nat, k: nat, alnum: char -> bool)
    requires i < |s| && k > 0 && s[i] == '<'
    ensures match Plus(i + 1, IriEnd(s[i + 1..], 1))
            case None => Terms(s[i..], k, alnum) == None
            case Some(j) => i < j <= |s| && Terms(s[i..], k, alnum) == Cons(s[i..j], Terms(s[j..], k - 1, alnum))
  {
    var t := s[i..];
    assert t[1..] == s[i + 1..];
    IriFirst(t, k, alnum);
    match IriEnd(t[1..], 1)
    case None =>
    case Some(n) =>
      assert t[..n + 1] == s[i..i + 1 + n] && t[n + 1..] == s[i + 1 + n..];
  }

  lemma LiteralSpan(s: string, i: nat, alnum: char -> bool)
    requires i < |s|
    ensures var j := i + 1 + LiteralEnd(s[i + 1..], false);
            j <= |s| && i + LiteralLength(s[i..], alnum) == j + SuffixEnd(s[j..], alnum)
  {
    var t := s[i..];
    assert t[1..] == s[i + 1..];
    EndsWithin(t[1..], 1, false, alnum);
    var n := 1 + LiteralEnd(t[1..], false);
    assert t[n..] == s[i + n..];
  }

  lemma LiteralTerm(s: string, i: nat, k: nat, alnum: char -> bool)
    requires i < |s| && k > 0 && s[i] == '"'
    ensures var m := i + LiteralLength(s[i..], alnum);
            i < m <= |s| && Terms(s[i..], k, alnum) == Cons(s[i..m], Terms(s[m..], k - 1, alnum))
  {
    var t := s[i..];
    var n := LiteralLength(t, alnum);
    assert t[..n] == s[i..i + n] && t[n..] == s[i + n..];
  }

  lemma BlankTerm(s: string, i: nat, k: nat, alnum: char -> bool)
    requires i < |s| && k > 0 && s[i] == '_'
    ensures var j := i + BlankEnd(s[i..]);
            && i < j <= |s|
            && Terms(s[i..], k, alnum) == Cons(s[i..j], Terms(s[Min(j + 1, |s|)..], k - 1, alnum))
  {
    var t := s[i..];
    EndsWithin(t, 1, false, alnum);
    var n := BlankEnd(t);
    assert t[..n] == s[i..i + n] && t[Min(n + 1, |t|)..] == s[Min(i + n + 1, |s|)..];
  }

  lemma SkippedChar(s: string, i: nat, k: nat, alnum: char -> bool)
    requires i < |s| && k > 0 && s[i] != '<' && s[i] != '"' && s[i] != '_'
    ensures Terms(s[i..], k, alnum) == Terms(s[i + 1..], k, alnum)
  {
  }

  method ReadLiteral(s: string, i: nat, ghost k: nat, alnum: char -> bool) returns (j: nat)
    requires i < |s| && k > 0 && s[i] == '"'
    ensures i < j <= |s| && Terms(s[i..], k, alnum) == Cons(s[i..j], Terms(s[j..], k - 1, alnum))
  {
    LiteralTerm(s, i, k, alnum);
    LiteralSpan(s, i, alnum);
    j := ReadQuoted(s, i + 1);
    j := ReadSuffix(s, j, alnum);
  }

  /** One step of the tokenizer: the position after what it read, and the term, if it was one. */
  method ReadToken(s: string, i: nat, k: nat, alnum: char -> bool) returns (end: Option<nat>, term: Option<string>)
    requires i < |s| && k > 0
    ensures end.None? ==> Terms(s[i..], k, alnum) == None
    ensures end.Some? ==> i < end.value <= |s|
    ensures end.Some? && term.None? ==> Terms(s[i..], k, alnum) == Terms(s[end.value..], k, alnum)
    ensures end.Some? && term.Some? ==> Terms(s[i..], k, alnum) == Cons(term.value, Terms(s[end.value..], k - 1, alnum))
  {
    term := None;
    match s[i] {
      case '<' =>
        IriTerm(s, i, k, alnum);
        end := ReadIri(s, i + 1);
        if end.Some? {
          term := Some(s[i..end.value]);
        }
      case '"' =>
        var j := ReadLiteral(s, i, k, alnum);
        end, term := Some(j), Some(s[i..j]);
      case '_' =>
        BlankTerm(s, i, k, alnum);
        var j := ReadBlank(s, i);
        end, term := Some(Min(j + 1, |s|)), Some(s[i..j]);
      case _ =>
        SkippedChar(s, i, k, alnum);
        end := Some(i + 1);
    }
  }

  method ParseNtTriple(line: string, alnum: char -> bool) returns (r: Option<(string, string, string)>)
    ensures r == Parsed(line, alnum)
  {
    var s := Statement(line);
    var terms: seq<string> := [];
    var i := 0;
    assert s[0..] == s;
    JoinNothing(Terms(s, 3, alnum));
    while i < |s| && |terms| < 3
      invariant 0 <= i <= |s| && |terms| <= 3
      invariant Joined(terms, Terms(s[i..], 3 - |terms|, alnum)) == Terms(s, 3, alnum)
      decreases |s| - i
    {
      var end, term := ReadToken(s, i, 3 - |terms|, alnum);
      if end.None? {
        return None;
      }
      if term.Some? {
        JoinCons(terms, term.value, Terms(s[end.value..], 3 - |terms| - 1, alnum));
        terms := terms + [term.value];
      }
      i := end.value;
    }
    assert Terms(s, 3, alnum) == Some(terms + []);
    assert terms + [] == terms;
    r := if |terms| == 3 then Some((terms[0], terms[1], terms[2])) else None;
  }

  lemma JoinNothing(rest: Option<seq<string>>)
    ensures Joined([], rest) == rest
  {
    if rest.Some? {
      assert [] + rest.value == rest.value;
    }
  }
}
