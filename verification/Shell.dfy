/** The command language of sh.c: tokens, and the parser as recursive functions on positions in the line. */
module Shell {

  const MAXARGS := 10
  const O_RDONLY := 0
  const O_WRONLY_CREATE := 0x201

  /** A command tree whose words are spans of the line, or strings. */
  datatype Cmd<W> =
    | Exec(argv: seq<W>)
    | Redir(cmd: Cmd<W>, file: W, mode: nat, fd: nat)
    | Pipe(left: Cmd<W>, right: Cmd<W>)
    | List(left: Cmd<W>, right: Cmd<W>)
    | Back(cmd: Cmd<W>)

  /** argv[i] and eargv[i]: a word and the position just after it. */
  datatype Span = Span(q: nat, eq: nat)

  // Tokens

  predicate IsSpace(c: char) {
    c == ' ' || c == '\t' || c == '\r' || c == '\n' || c == '\U{000B}'
  }

  predicate IsSymbol(c: char) {
    c == '<' || c == '|' || c == '>' || c == '&' || c == ';' || c == '(' || c == ')'
  }

  predicate IsWordChar(c: char) {
    !IsSpace(c) && !IsSymbol(c)
  }

  function Skip(s: string, p: nat): (r: nat)
    requires p <= |s|
    ensures p <= r <= |s| && (r < |s| ==> !IsSpace(s[r]))
    decreases |s| - p
  {
    if p < |s| && IsSpace(s[p]) then Skip(s, p + 1) else p
  }

  function WordEnd(s: string, p: nat): (r: nat)
    requires p <= |s|
    ensures p <= r <= |s|
    decreases |s| - p
  {
    if p < |s| && IsWordChar(s[p]) then WordEnd(s, p + 1) else p
  }

  /** WordEnd is the first position from p on that holds no word character. */
  lemma {:induction false} WordEndIsFirst(s: string, p: nat, e: nat)
    requires p <= e <= |s|
    ensures e == WordEnd(s, p) <==> (e < |s| ==> !IsWordChar(s[e])) && forall k :: p <= k < e ==> IsWordChar(s[k])
    decreases |s| - p
  {
    if p < |s| && IsWordChar(s[p]) && p < e {
      WordEndIsFirst(s, p + 1, e);
    }
  }

  /** kind is the character gettoken returns: 0 at the end, the symbol, '+' for ">>", 'a' for a word. */
  datatype Token = Token(kind: char, span: Span, next: nat)

  function EndOfToken(s: string, q: nat): (eq: nat)
    requires q <= |s|
    ensures q <= eq <= |s| && (q < |s| && !IsSpace(s[q]) ==> q < eq)
  {
    if q == |s| then q
    else if s[q] == '>' then if q + 1 < |s| && s[q + 1] == '>' then q + 2 else q + 1
    else if IsSymbol(s[q]) then q + 1
    else WordEnd(s, q)
  }

  function KindOfToken(s: string, q: nat): char
    requires q <= |s|
  {
    if q == |s| then '\0'
    else if s[q] == '>' then if q + 1 < |s| && s[q + 1] == '>' then '+' else '>'
    else if IsSymbol(s[q]) then s[q]
    else 'a'
  }

  function GetToken(s: string, p: nat): (t: Token)
    requires p <= |s|
    ensures p <= t.span.q <= t.span.eq <= t.next <= |s|
    ensures t.span.q < |s| ==> t.span.q < t.span.eq
  {
    var q := Skip(s, p);
    var eq := EndOfToken(s, q);
    Token(KindOfToken(s, q), Span(q, eq), Skip(s, eq))
  }

  /** What peek looks at: the first character that is not white space, or 0 at the end. */
  function Peek(s: string, p: nat): char
    requires p <= |s|
  {
    var q := Skip(s, p);
    if q < |s| then s[q] else '\0'
  }

  /** peek(ps, es, "<>") */
  predicate IsRedirection(c: char) {
    c == '<' || c == '>'
  }

  /** peek(ps, es, "|)&;") */
  predicate EndsWords(c: char) {
    c == '|' || c == ')' || c == '&' || c == ';'
  }

  /** The span is one whole word. */
  ghost predicate SpanOk(s: string, w: Span) {
    && w.q < w.eq <= |s| && (forall k :: w.q <= k < w.eq ==> IsWordChar(s[k]))
    && (w.eq < |s| ==> !IsWordChar(s[w.eq]))
  }

  lemma WordToken(s: string, p: nat)
    requires p <= |s| && GetToken(s, p).kind == 'a'
    ensures SpanOk(s, GetToken(s, p).span)
  {
    var w := GetToken(s, p).span;
    WordEndIsFirst(s, w.q, w.eq);
  }

  ghost predicate SpansOk(s: string, c: Cmd<Span>) {
    match c
    case Exec(argv) => |argv| < MAXARGS && forall k :: 0 <= k < |argv| ==> SpanOk(s, argv[k])
    case Redir(d, file, mode, fd) => SpansOk(s, d) && SpanOk(s, file)
    case Pipe(l, r) => SpansOk(s, l) && SpansOk(s, r)
    case List(l, r) => SpansOk(s, l) && SpansOk(s, r)
    case Back(d) => SpansOk(s, d)
  }

  // The grammar

  /** A panic of the shell, or the tree and the position after it. */
  datatype Parsed = Err | Ok(cmd: Cmd<Span>, p: nat)

  function Redirection(c: Cmd<Span>, kind: char, file: Span): Cmd<Span> {
    if kind == '<' then Redir(c, file, O_RDONLY, 0) else Redir(c, file, O_WRONLY_CREATE, 1)
  }

  /** parseredirs. */
  function Redirs(s: string, c: Cmd<Span>, p: nat): (r: Parsed)
    requires p <= |s|
    ensures r.Ok? ==> p <= r.p <= |s|
    decreases |s| - p
  {
    if !IsRedirection(Peek(s, p)) then Ok(c, Skip(s, p))
    else
      var op := GetToken(s, p);
      var file := GetToken(s, op.next);
      if file.kind != 'a' then Err else Redirs(s, Redirection(c, op.kind, file.span), file.next)
  }

  /**
   * parseexec's node: redirections met among the words wrap the node that the words are being
   * stored in. Fill gives the tree seen from outside when the words are argv.
   */
  function Fill<W>(ret: Cmd<W>, argv: seq<W>): Cmd<W> {
    match ret
    case Exec(_) => Exec(argv)
    case Redir(c, file, mode, fd) => Redir(Fill(c, argv), file, mode, fd)
    case _ => ret
  }

  /** parseexec's loop, with the words so far. */
  function Args(s: string, ret: Cmd<Span>, argv: seq<Span>, p: nat): (r: Parsed)
    requires p <= |s|
    ensures r.Ok? ==> p <= r.p <= |s|
    decreases |s| - p
  {
    if EndsWords(Peek(s, p)) then Ok(Fill(ret, argv), Skip(s, p))
    else
      var t := GetToken(s, p);
      if t.kind == '\0' then Ok(Fill(ret, argv), t.next)
      else if t.kind != 'a' || |argv| + 1 >= MAXARGS then Err
      else
        var more := Redirs(s, ret, t.next);
        if more.Err? then Err else Args(s, more.cmd, argv + [t.span], more.p)
  }

  /** parseexec. */
  function Simple(s: string, p: nat): (r: Parsed)
    requires p <= |s|
    ensures r.Ok? ==> p <= r.p <= |s|
    decreases |s| - p, 1
  {
    if Peek(s, p) == '(' then Block(s, Skip(s, p))
    else
      var first := Redirs(s, Exec([]), p);
      if first.Err? then Err else Args(s, first.cmd, [], first.p)
  }

  /** parseblock. */
  function Block(s: string, p: nat): (r: Parsed)
    requires p <= |s|
    ensures r.Ok? ==> p <= r.p <= |s|
    decreases |s| - p, 0
  {
    if Peek(s, p) != '(' then Err
    else
      var inside := Line(s, GetToken(s, p).next);
      if inside.Err? || Peek(s, inside.p) != ')' then Err
      else Redirs(s, inside.cmd, GetToken(s, inside.p).next)
  }

  /** parsepipe. */
  function Pipeline(s: string, p: nat): (r: Parsed)
    requires p <= |s|
    ensures r.Ok? ==> p <= r.p <= |s|
    decreases |s| - p, 2
  {
    var c := Simple(s, p);
    if c.Err? then Err
    else if Peek(s, c.p) != '|' then Ok(c.cmd, Skip(s, c.p))
    else
      var rest := Pipeline(s, GetToken(s, c.p).next);
      if rest.Err? then Err else Ok(Pipe(c.cmd, rest.cmd), rest.p)
  }

  /** parseline's loop. */
  function Backs(s: string, c: Cmd<Span>, p: nat): (r: Parsed)
    requires p <= |s|
    ensures r.Ok? && p <= r.p <= |s|
    decreases |s| - p
  {
    if Peek(s, p) == '&' then Backs(s, Back(c), GetToken(s, p).next) else Ok(c, Skip(s, p))
  }

  /** parseline. */
  function Line(s: string, p: nat): (r: Parsed)
    requires p <= |s|
    ensures r.Ok? ==> p <= r.p <= |s|
    decreases |s| - p, 3
  {
    var c := Pipeline(s, p);
    if c.Err? then Err
    else
      var b := Backs(s, c.cmd, c.p);
      if Peek(s, b.p) != ';' then Ok(b.cmd, Skip(s, b.p))
      else
        var rest := Line(s, GetToken(s, b.p).next);
        if rest.Err? then Err else Ok(List(b.cmd, rest.cmd), rest.p)
  }

  /** parsecmd, up to nulterminate. */
  function Command(s: string): Parsed {
    var r := Line(s, 0);
    if r.Ok? && Skip(s, r.p) == |s| then r else Err
  }
}
