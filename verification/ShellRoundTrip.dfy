/** Printing a command tree with all its parentheses, and parsing it back. */
module ShellRoundTrip {
  import opened Shell

  /** A word the shell can read: a C string, not empty, with no white space or symbols in it. */
  ghost predicate IsWord(w: string) {
    w != "" && '\0' !in w && forall k :: 0 <= k < |w| ==> IsWordChar(w[k])
  }

  ghost predicate WellFormed(t: Cmd<string>) {
    match t
    case Exec(argv) => |argv| < MAXARGS && forall k :: 0 <= k < |argv| ==> IsWord(argv[k])
    case Redir(c, file, mode, fd) => WellFormed(c) && IsWord(file) && ((mode, fd) == (O_RDONLY, 0) || (mode, fd) == (O_WRONLY_CREATE, 1))
    case Pipe(l, r) => WellFormed(l) && WellFormed(r)
    case List(l, r) => WellFormed(l) && WellFormed(r)
    case Back(c) => WellFormed(c)
  }

  function Words(ws: seq<string>): string {
    if ws == [] then "" else if |ws| == 1 then ws[0] else ws[0] + " " + Words(ws[1..])
  }

  /** x in parentheses, and y behind it. */
  function Group(x: string, y: string): string {
    "(" + x + ")" + y
  }

  function Print(t: Cmd<string>): string {
    match t
    case Exec(argv) => Words(argv)
    case Redir(c, file, mode, fd) => Group(Print(c), (if fd == 0 then "<" else ">") + file)
    case Pipe(l, r) => Group(Print(l), "|" + Group(Print(r), ""))
    case List(l, r) => Group(Print(l), ";" + Group(Print(r), ""))
    case Back(c) => Group(Print(c), "&")
  }

  /** The strings a parsed tree stands for. */
  function Slice(s: string, w: Span): string {
    if w.q <= w.eq <= |s| then s[w.q..w.eq] else ""
  }

  function Slices(s: string, ws: seq<Span>): seq<string> {
    if ws == [] then [] else [Slice(s, ws[0])] + Slices(s, ws[1..])
  }

  function Text(s: string, c: Cmd<Span>): Cmd<string> {
    match c
    case Exec(argv) => Exec(Slices(s, argv))
    case Redir(d, file, mode, fd) => Redir(Text(s, d), Slice(s, file), mode, fd)
    case Pipe(l, r) => Pipe(Text(s, l), Text(s, r))
    case List(l, r) => List(Text(s, l), Text(s, r))
    case Back(d) => Back(Text(s, d))
  }

  /** x stands at p in s. */
  ghost predicate At(s: string, p: nat, x: string) {
    p + |x| <= |s| && forall k :: 0 <= k < |x| ==> s[p + k] == x[k]
  }

  lemma AtSplit(s: string, p: nat, x: string, y: string)
    requires At(s, p, x + y)
    ensures At(s, p, x) && At(s, p + |x|, y)
  {
    forall k | 0 <= k < |x|
      ensures s[p + k] == x[k]
    {
      assert (x + y)[k] == x[k];
    }
    forall k | 0 <= k < |y|
      ensures s[p + |x| + k] == y[k]
    {
      assert (x + y)[|x| + k] == y[k];
    }
  }

  /** Where a printed command ends: the end of the line, or a closing parenthesis. */
  ghost predicate Closed(s: string, p: nat) {
    p == |s| || (p < |s| && s[p] == ')')
  }

  ghost predicate Firm(s: string, p: nat) {
    p == |s| || (p < |s| && !IsSpace(s[p]))
  }

  lemma FirmStays(s: string, p: nat)
    requires Firm(s, p)
    ensures Skip(s, p) == p
  {
  }

  /** A word is read as one token. */
  lemma WordIsToken(s: string, p: nat, w: string)
    requires IsWord(w) && At(s, p, w) && (p + |w| < |s| ==> !IsWordChar(s[p + |w|]))
    ensures Firm(s, p) && KindOfToken(s, p) == 'a' && EndOfToken(s, p) == p + |w|
    ensures s[p] == w[0] && IsWordChar(s[p])
  {
    var e := p + |w|;
    forall k | p <= k < e
      ensures IsWordChar(s[k])
    {
      assert s[p + (k - p)] == w[k - p];
    }
    assert s[p] == s[p + 0];
    WordEndIsFirst(s, p, e);
  }

  /** What may follow the word before next: the end, a parenthesis, or one space. */
  ghost predicate Follows(s: string, e: nat, next: nat) {
    if e < |s| && s[e] == ' ' then next == e + 1 && next < |s| && !IsSpace(s[next]) else next == e && Closed(s, e)
  }

  lemma WordThenNext(s: string, p: nat, w: string, next: nat)
    requires IsWord(w) && At(s, p, w) && Follows(s, p + |w|, next)
    ensures GetToken(s, p) == Token('a', Span(p, p + |w|), next) && Slice(s, Span(p, p + |w|)) == w
    ensures s[p] == w[0] && IsWordChar(s[p])
  {
    WordIsToken(s, p, w);
    FirmStays(s, p);
    FirmStays(s, next);
    assert Skip(s, p + |w|) == next;
  }

  /** One turn of parseexec's loop on a word without redirections. */
  lemma ArgsTurn(s: string, p: nat, argv: seq<Span>, w: string, next: nat)
    requires IsWord(w) && At(s, p, w) && Follows(s, p + |w|, next) && |argv| + 1 < MAXARGS
    requires next < |s| ==> !IsRedirection(s[next])
    ensures Args(s, Exec([]), argv, p) == Args(s, Exec([]), argv + [Span(p, p + |w|)], next)
    ensures Slice(s, Span(p, p + |w|)) == w
  {
    WordThenNext(s, p, w, next);
    FirmStays(s, p);
    FirmStays(s, next);
    assert !IsRedirection(Peek(s, next));
  }

  lemma ArgsEnd(s: string, p: nat, argv: seq<Span>)
    requires Closed(s, p)
    ensures Args(s, Exec([]), argv, p) == Ok(Exec(argv), p)
  {
    FirmStays(s, p);
  }

  /** Where printed words stand. */
  function SpansOf(p: nat, ws: seq<string>): seq<Span>
    decreases |ws|
  {
    if ws == [] then [] else [Span(p, p + |ws[0]|)] + SpansOf(p + |ws[0]| + 1, ws[1..])
  }

  lemma SpansStep(p: nat, next: nat, argv: seq<Span>, ws: seq<string>)
    requires ws != [] && (|ws| > 1 ==> next == p + |ws[0]| + 1)
    ensures SpansOf(p, ws) == [Span(p, p + |ws[0]|)] + SpansOf(next, ws[1..])
    ensures argv + SpansOf(p, ws) == argv + [Span(p, p + |ws[0]|)] + SpansOf(next, ws[1..])
  {
  }

  /** Printed words from p up to end, where the command ends. */
  ghost predicate Stand(s: string, p: nat, ws: seq<string>, end: nat) {
    && end == p + |Words(ws)| && At(s, p, Words(ws)) && Closed(s, end)
    && forall k :: 0 <= k < |ws| ==> IsWord(ws[k])
  }

  lemma {:induction false} ArgsParse(s: string, p: nat, argv: seq<Span>, ws: seq<string>, end: nat)
    requires Stand(s, p, ws, end) && |argv| + |ws| < MAXARGS
    ensures Args(s, Exec([]), argv, p) == Ok(Exec(argv + SpansOf(p, ws)), end)
    decreases |ws|
  {
    if ws == [] {
      ArgsEnd(s, p, argv);
      assert argv + SpansOf(p, ws) == argv;
    } else {
      var next := NextWord(s, p, ws, end);
      ArgsTurn(s, p, argv, ws[0], next);
      ArgsParse(s, next, argv + [Span(p, p + |ws[0]|)], ws[1..], end);
      SpansStep(p, next, argv, ws);
    }
  }

  /** Past the first of some printed words stand the others. */
  lemma NextWord(s: string, p: nat, ws: seq<string>, end: nat) returns (next: nat)
    requires ws != [] && Stand(s, p, ws, end)
    ensures IsWord(ws[0]) && At(s, p, ws[0]) && Follows(s, p + |ws[0]|, next) && Stand(s, next, ws[1..], end)
    ensures |ws| > 1 ==> next == p + |ws[0]| + 1
    ensures next < |s| ==> !IsRedirection(s[next])
  {
    var e := p + |ws[0]|;
    if |ws| == 1 {
      next := e;
    } else {
      var rest := Words(ws[1..]);
      assert Words(ws) == ws[0] + (" " + rest);
      AtSplit(s, p, ws[0], " " + rest);
      AtSplit(s, e, " ", rest);
      next := e + 1;
      assert s[e + 0] == " "[0] && s[next + 0] == rest[0] == ws[1][0];
    }
  }

  lemma SlicesCons(s: string, w: Span, rest: seq<Span>)
    ensures Slices(s, [w] + rest) == [Slice(s, w)] + Slices(s, rest)
  {
    assert ([w] + rest)[1..] == rest;
  }

  lemma {:induction false} SlicesOfSpans(s: string, p: nat, ws: seq<string>, end: nat)
    requires Stand(s, p, ws, end)
    ensures Slices(s, SpansOf(p, ws)) == ws
    decreases |ws|
  {
    if ws != [] {
      var next := NextWord(s, p, ws, end);
      SlicesOfSpans(s, next, ws[1..], end);
      WordThenNext(s, p, ws[0], next);
      SpansStep(p, next, [], ws);
      SlicesCons(s, Span(p, p + |ws[0]|), SpansOf(next, ws[1..]));
      assert [ws[0]] + ws[1..] == ws;
    }
  }

  lemma FirstOfWords(s: string, p: nat, ws: seq<string>, end: nat)
    requires Stand(s, p, ws, end)
    ensures Firm(s, p) && (p < |s| && s[p] != ')' ==> IsWordChar(s[p]))
  {
    if ws != [] {
      assert Words(ws)[0] == ws[0][0] == s[p + 0];
    }
  }

  // Blocks and what may follow them

  ghost predicate Paren(s: string, p: nat, x: string, end: nat) {
    && p + |x| + 2 == end <= |s| && s[p] == '(' && At(s, p + 1, x) && s[end - 1] == ')'
  }

  /** A block in parentheses parses as what is inside, with the redirections behind it. */
  lemma BlockParses(s: string, p: nat, x: string, end: nat, c: Cmd<Span>)
    requires Paren(s, p, x, end) && Firm(s, p + 1) && Firm(s, end)
    requires Line(s, p + 1) == Ok(c, end - 1)
    ensures Simple(s, p) == Redirs(s, c, end)
  {
    FirmStays(s, p);
    FirmStays(s, p + 1);
    FirmStays(s, end - 1);
    FirmStays(s, end);
    assert GetToken(s, p).next == p + 1;
    assert GetToken(s, end - 1).next == end;
  }

  lemma PipelineEnds(s: string, p: nat, c: Cmd<Span>, m: nat)
    requires p <= |s| && Simple(s, p) == Ok(c, m) && Firm(s, m) && (m < |s| ==> s[m] != '|')
    ensures Pipeline(s, p) == Ok(c, m)
  {
    FirmStays(s, m);
  }

  lemma LineEnds(s: string, p: nat, c: Cmd<Span>, end: nat)
    requires p <= |s| && Pipeline(s, p) == Ok(c, end) && Closed(s, end)
    ensures Line(s, p) == Ok(c, end)
  {
    FirmStays(s, end);
    assert Backs(s, c, end) == Ok(c, end);
  }

  /** A command that is not followed by anything is a whole line. */
  lemma SimpleIsLine(s: string, p: nat, c: Cmd<Span>, end: nat)
    requires p <= |s| && Simple(s, p) == Ok(c, end) && Closed(s, end)
    ensures Line(s, p) == Pipeline(s, p) == Ok(c, end)
  {
    PipelineEnds(s, p, c, end);
    LineEnds(s, p, c, end);
  }

  lemma SymbolToken(s: string, m: nat)
    requires m < |s| && (s[m] == '|' || s[m] == ';' || s[m] == '&') && Firm(s, m + 1)
    ensures Firm(s, m) && GetToken(s, m).next == m + 1
  {
    FirmStays(s, m);
    FirmStays(s, m + 1);
  }

  lemma ExecParses(s: string, p: nat, ws: seq<string>, end: nat)
    requires Stand(s, p, ws, end) && |ws| < MAXARGS
    ensures Firm(s, p) && Line(s, p) == Ok(Exec(SpansOf(p, ws)), end)
  {
    FirstOfWords(s, p, ws, end);
    FirmStays(s, p);
    ArgsParse(s, p, [], ws, end);
    assert [] + SpansOf(p, ws) == SpansOf(p, ws);
    assert Peek(s, p) != '(' && !IsRedirection(Peek(s, p));
    SimpleIsLine(s, p, Exec(SpansOf(p, ws)), end);
  }

  /** No redirection starts at p. */
  lemma NoRedirs(s: string, c: Cmd<Span>, p: nat)
    requires Firm(s, p) && (p < |s| ==> s[p] != '<' && s[p] != '>')
    ensures Redirs(s, c, p) == Ok(c, p)
  {
    FirmStays(s, p);
  }

  lemma PipeParses(s: string, p: nat, l: Cmd<Span>, m: nat, r: Cmd<Span>, end: nat)
    requires p <= |s| && m < |s| && s[m] == '|' && Firm(s, m + 1)
    requires Simple(s, p) == Ok(l, m) && Pipeline(s, m + 1) == Ok(r, end)
    ensures Pipeline(s, p) == Ok(Pipe(l, r), end)
  {
    SymbolToken(s, m);
    FirmStays(s, m);
  }

  lemma ListParses(s: string, p: nat, l: Cmd<Span>, m: nat, r: Cmd<Span>, end: nat)
    requires p <= |s| && m < |s| && s[m] == ';' && Firm(s, m + 1)
    requires Pipeline(s, p) == Ok(l, m) && Line(s, m + 1) == Ok(r, end)
    ensures Line(s, p) == Ok(List(l, r), end)
  {
    SymbolToken(s, m);
    FirmStays(s, m);
    assert Backs(s, l, m) == Ok(l, m);
  }

  lemma BackParses(s: string, p: nat, c: Cmd<Span>, m: nat)
    requires p <= |s| && m < |s| && s[m] == '&' && Pipeline(s, p) == Ok(c, m) && Closed(s, m + 1)
    ensures Line(s, p) == Ok(Back(c), m + 1)
  {
    SymbolToken(s, m);
    FirmStays(s, m);
    FirmStays(s, m + 1);
    assert Backs(s, c, m) == Backs(s, Back(c), m + 1) == Ok(Back(c), m + 1);
  }

  lemma PipeIsLine(s: string, p: nat, l: Cmd<Span>, m: nat, r: Cmd<Span>, end: nat)
    requires p <= |s| && m < |s| && s[m] == '|' && Firm(s, m + 1) && Closed(s, end)
    requires Simple(s, p) == Ok(l, m) && Pipeline(s, m + 1) == Ok(r, end)
    ensures Line(s, p) == Ok(Pipe(l, r), end)
  {
    PipeParses(s, p, l, m, r, end);
    LineEnds(s, p, Pipe(l, r), end);
  }

  lemma ListIsLine(s: string, p: nat, l: Cmd<Span>, m: nat, r: Cmd<Span>, end: nat)
    requires p <= |s| && m < |s| && s[m] == ';' && Firm(s, m + 1)
    requires Simple(s, p) == Ok(l, m) && Line(s, m + 1) == Ok(r, end)
    ensures Line(s, p) == Ok(List(l, r), end)
  {
    PipelineEnds(s, p, l, m);
    ListParses(s, p, l, m, r, end);
  }

  lemma RedirParses(s: string, c: Cmd<Span>, m: nat, file: string, end: nat)
    requires m < |s| && (s[m] == '<' || s[m] == '>') && IsWord(file) && At(s, m + 1, file)
    requires end == m + 1 + |file| && Closed(s, end)
    ensures Redirs(s, c, m) == Ok(Redirection(c, s[m], Span(m + 1, end)), end)
    ensures Slice(s, Span(m + 1, end)) == file
  {
    FirmStays(s, m);
    WordThenNext(s, m + 1, file, end);
    FirmStays(s, m + 1);
    assert GetToken(s, m).next == m + 1 && GetToken(s, m).kind == s[m];
    NoRedirs(s, Redirection(c, s[m], Span(m + 1, end)), end);
  }

  /** A printed block, and whatever is printed after it. */
  lemma SplitParen(s: string, p: nat, x: string, y: string)
    requires At(s, p, Group(x, y))
    ensures Paren(s, p, x, p + |x| + 2) && At(s, p + |x| + 2, y)
  {
    AtSplit(s, p, "(" + x + ")", y);
    AtSplit(s, p, "(" + x, ")");
    AtSplit(s, p, "(", x);
    assert s[p + 0] == "("[0] && s[p + 1 + |x| + 0] == ")"[0];
  }

  lemma {:induction false} RoundTripAt(s: string, p: nat, t: Cmd<string>, end: nat) returns (c: Cmd<Span>)
    requires WellFormed(t) && end == p + |Print(t)| && At(s, p, Print(t)) && Closed(s, end)
    ensures Firm(s, p) && Line(s, p) == Ok(c, end) && Text(s, c) == t
    decreases t, 1
  {
    match t
    case Exec(argv) =>
      ExecParses(s, p, argv, end);
      SlicesOfSpans(s, p, argv, end);
      c := Exec(SpansOf(p, argv));
    case Redir(d, file, mode, fd) =>
      var m := SplitRedir(s, p, Print(d), if fd == 0 then "<" else ">", file);
      c := RedirTrip(s, p, t, m, end);
    case Pipe(l, r) =>
      var m := SplitBinary(s, p, Print(l), "|", Print(r));
      c := PipeTrip(s, p, t, m, end);
    case List(l, r) =>
      var m := SplitBinary(s, p, Print(l), ";", Print(r));
      c := ListTrip(s, p, t, m, end);
    case Back(d) =>
      c := BackTrip(s, p, t, end);
  }

  lemma {:induction false} ParenTrip(s: string, p: nat, t: Cmd<string>, m: nat) returns (c: Cmd<Span>)
    requires WellFormed(t) && Paren(s, p, Print(t), m) && Firm(s, m)
    ensures Simple(s, p) == Redirs(s, c, m) && Text(s, c) == t
    decreases t, 2
  {
    c := RoundTripAt(s, p + 1, t, m - 1);
    BlockParses(s, p, Print(t), m, c);
  }

  /** A block, a redirection and its file. */
  lemma SplitRedir(s: string, p: nat, x: string, op: string, file: string) returns (m: nat)
    requires (op == "<" || op == ">") && At(s, p, Group(x, op + file))
    ensures Paren(s, p, x, m) && m < |s| && s[m] == op[0] && At(s, m + 1, file) && m + 1 + |file| == p + |Group(x, op + file)|
  {
    m := p + |x| + 2;
    SplitParen(s, p, x, op + file);
    AtSplit(s, m, op, file);
    assert s[m + 0] == op[0];
  }

  lemma {:induction false} RedirTrip(s: string, p: nat, t: Cmd<string>, m: nat, end: nat) returns (c: Cmd<Span>)
    requires WellFormed(t) && t.Redir? && Closed(s, end) && Paren(s, p, Print(t.cmd), m)
    requires m < |s| && s[m] == (if t.fd == 0 then '<' else '>') && At(s, m + 1, t.file) && end == m + 1 + |t.file|
    ensures Line(s, p) == Ok(c, end) && Text(s, c) == t
    decreases t, 0
  {
    var d := ParenTrip(s, p, t.cmd, m);
    RedirParses(s, d, m, t.file, end);
    c := Redirection(d, s[m], Span(m + 1, end));
    SimpleIsLine(s, p, c, end);
  }

  lemma {:induction false} BlockTrip(s: string, p: nat, t: Cmd<string>, m: nat) returns (c: Cmd<Span>)
    requires WellFormed(t) && Paren(s, p, Print(t), m)
    requires Firm(s, m) && (m < |s| ==> s[m] != '<' && s[m] != '>')
    ensures Simple(s, p) == Ok(c, m) && Text(s, c) == t
    decreases t, 3
  {
    c := ParenTrip(s, p, t, m);
    NoRedirs(s, c, m);
  }

  lemma {:induction false} LastTrip(s: string, p: nat, t: Cmd<string>, end: nat) returns (c: Cmd<Span>)
    requires WellFormed(t) && Paren(s, p, Print(t), end) && Closed(s, end)
    ensures Line(s, p) == Pipeline(s, p) == Ok(c, end) && Text(s, c) == t
    decreases t, 4
  {
    c := BlockTrip(s, p, t, end);
    SimpleIsLine(s, p, c, end);
  }

  lemma {:induction false} BackTrip(s: string, p: nat, t: Cmd<string>, end: nat) returns (c: Cmd<Span>)
    requires WellFormed(t) && t.Back? && end == p + |Print(t)| && At(s, p, Print(t)) && Closed(s, end)
    ensures Firm(s, p) && Line(s, p) == Ok(c, end) && Text(s, c) == t
    decreases t, 0
  {
    SplitParen(s, p, Print(t.cmd), "&");
    var m := end - 1;
    assert s[m + 0] == "&"[0];
    var d := BlockTrip(s, p, t.cmd, m);
    PipelineEnds(s, p, d, m);
    BackParses(s, p, d, m);
    c := Back(d);
  }

  lemma {:induction false} PipeTrip(s: string, p: nat, t: Cmd<string>, m: nat, end: nat) returns (c: Cmd<Span>)
    requires t.Pipe? && WellFormed(t.left) && WellFormed(t.right) && Closed(s, end)
    requires m < |s| && Paren(s, p, Print(t.left), m) && s[m] == '|' && Paren(s, m + 1, Print(t.right), end)
    ensures Line(s, p) == Ok(c, end) && Text(s, c) == t
    decreases t, 0
  {
    var l := BlockTrip(s, p, t.left, m);
    var r := LastTrip(s, m + 1, t.right, end);
    c := Pipe(l, r);
    PipeIsLine(s, p, l, m, r, end);
  }

  lemma {:induction false} ListTrip(s: string, p: nat, t: Cmd<string>, m: nat, end: nat) returns (c: Cmd<Span>)
    requires t.List? && WellFormed(t.left) && WellFormed(t.right) && Closed(s, end)
    requires m < |s| && Paren(s, p, Print(t.left), m) && s[m] == ';' && Paren(s, m + 1, Print(t.right), end)
    ensures Line(s, p) == Ok(c, end) && Text(s, c) == t
    decreases t, 0
  {
    var l := BlockTrip(s, p, t.left, m);
    var r := LastTrip(s, m + 1, t.right, end);
    c := List(l, r);
    ListIsLine(s, p, l, m, r, end);
  }

  /** Two blocks with a separator between them. */
  lemma SplitBinary(s: string, p: nat, x: string, sep: string, y: string) returns (m: nat)
    requires |sep| == 1 && At(s, p, Group(x, sep + Group(y, "")))
    ensures Paren(s, p, x, m) && m < |s| && s[m] == sep[0] && Paren(s, m + 1, y, p + |Group(x, sep + Group(y, ""))|)
  {
    m := p + |x| + 2;
    SplitParen(s, p, x, sep + Group(y, ""));
    AtSplit(s, m, sep, Group(y, ""));
    assert s[m + 0] == sep[0];
    SplitParen(s, m + 1, y, "");
  }

  /** For every well-formed tree, parsing its printing gives the tree back. */
  lemma RoundTrip(t: Cmd<string>)
    requires WellFormed(t)
    ensures Command(Print(t)).Ok? && Text(Print(t), Command(Print(t)).cmd) == t
  {
    var s := Print(t);
    var c := RoundTripAt(s, 0, t, |s|);
  }

  lemma {:induction false} ArgsTooMany(s: string, p: nat, argv: seq<Span>, ws: seq<string>, end: nat)
    requires Stand(s, p, ws, end) && |argv| < MAXARGS <= |argv| + |ws|
    ensures Args(s, Exec([]), argv, p) == Err
    decreases |ws|
  {
    var next := NextWord(s, p, ws, end);
    WordThenNext(s, p, ws[0], next);
    FirmStays(s, p);
    if |argv| + 1 < MAXARGS {
      ArgsTurn(s, p, argv, ws[0], next);
      ArgsTooMany(s, next, argv + [Span(p, p + |ws[0]|)], ws[1..], end);
    }
  }

  lemma SimpleTooMany(s: string, ws: seq<string>)
    requires Stand(s, 0, ws, |s|) && MAXARGS <= |ws|
    ensures Simple(s, 0) == Err
  {
    var next := NextWord(s, 0, ws, |s|);
    WordThenNext(s, 0, ws[0], next);
    FirmStays(s, 0);
    NoRedirs(s, Exec([]), 0);
    ArgsTooMany(s, 0, [], ws, |s|);
  }

  lemma PanicSpreads(s: string, p: nat)
    requires p <= |s| && Simple(s, p) == Err
    ensures Line(s, p) == Err
  {
    assert Pipeline(s, p) == Err;
  }

  /** The bound on the number of words is exact: a command of printed words is accepted if and only if it has fewer than MAXARGS. */
  lemma WordLimit(ws: seq<string>)
    requires forall k :: 0 <= k < |ws| ==> IsWord(ws[k])
    ensures Command(Words(ws)).Ok? <==> |ws| < MAXARGS
  {
    if |ws| < MAXARGS {
      RoundTrip(Exec(ws));
    } else {
      SimpleTooMany(Words(ws), ws);
      PanicSpreads(Words(ws), 0);
    }
  }
}
