/** The parsing procedures of sh.c, with their loops, and nulterminate on the line's buffer. */
module ShellParser {
  import opened Shell
  import opened ShellRoundTrip

  // Every word the parser records is one whole word of the line

  lemma {:induction false} RedirsOk(s: string, c: Cmd<Span>, p: nat)
    requires p <= |s| && SpansOk(s, c)
    ensures Redirs(s, c, p).Ok? ==> SpansOk(s, Redirs(s, c, p).cmd)
    decreases |s| - p
  {
    if IsRedirection(Peek(s, p)) {
      var op := GetToken(s, p);
      var file := GetToken(s, op.next);
      if file.kind == 'a' {
        WordToken(s, op.next);
        RedirsOk(s, Redirection(c, op.kind, file.span), file.next);
      }
    }
  }

  lemma {:induction false} FillOk(s: string, ret: Cmd<Span>, argv: seq<Span>)
    requires SpansOk(s, ret) && SpansOk(s, Exec(argv))
    ensures SpansOk(s, Fill(ret, argv))
  {
    if ret.Redir? {
      FillOk(s, ret.cmd, argv);
    }
  }

  lemma {:induction false} ArgsOk(s: string, ret: Cmd<Span>, argv: seq<Span>, p: nat)
    requires p <= |s| && SpansOk(s, ret) && SpansOk(s, Exec(argv))
    ensures Args(s, ret, argv, p).Ok? ==> SpansOk(s, Args(s, ret, argv, p).cmd)
    decreases |s| - p
  {
    FillOk(s, ret, argv);
    var t := GetToken(s, p);
    if !EndsWords(Peek(s, p)) && t.kind == 'a' && |argv| + 1 < MAXARGS {
      WordToken(s, p);
      RedirsOk(s, ret, t.next);
      var more := Redirs(s, ret, t.next);
      if more.Ok? {
        ArgsOk(s, more.cmd, argv + [t.span], more.p);
      }
    }
  }

  lemma {:induction false} SimpleOk(s: string, p: nat)
    requires p <= |s|
    ensures Simple(s, p).Ok? ==> SpansOk(s, Simple(s, p).cmd)
    decreases |s| - p, 1
  {
    if Peek(s, p) == '(' {
      BlockOk(s, Skip(s, p));
    } else {
      RedirsOk(s, Exec([]), p);
      var first := Redirs(s, Exec([]), p);
      if first.Ok? {
        ArgsOk(s, first.cmd, [], first.p);
      }
    }
  }

  lemma {:induction false} BlockOk(s: string, p: nat)
    requires p <= |s|
    ensures Block(s, p).Ok? ==> SpansOk(s, Block(s, p).cmd)
    decreases |s| - p, 0
  {
    if Peek(s, p) == '(' {
      var inside := Line(s, GetToken(s, p).next);
      LineOk(s, GetToken(s, p).next);
      if inside.Ok? && Peek(s, inside.p) == ')' {
        RedirsOk(s, inside.cmd, GetToken(s, inside.p).next);
      }
    }
  }

  lemma {:induction false} PipelineOk(s: string, p: nat)
    requires p <= |s|
    ensures Pipeline(s, p).Ok? ==> SpansOk(s, Pipeline(s, p).cmd)
    decreases |s| - p, 2
  {
    SimpleOk(s, p);
    var c := Simple(s, p);
    if c.Ok? && Peek(s, c.p) == '|' {
      PipelineOk(s, GetToken(s, c.p).next);
    }
  }

  lemma {:induction false} BacksOk(s: string, c: Cmd<Span>, p: nat)
    requires p <= |s| && SpansOk(s, c)
    ensures SpansOk(s, Backs(s, c, p).cmd)
    decreases |s| - p
  {
    if Peek(s, p) == '&' {
      BacksOk(s, Back(c), GetToken(s, p).next);
    }
  }

  lemma {:induction false} LineOk(s: string, p: nat)
    requires p <= |s|
    ensures Line(s, p).Ok? ==> SpansOk(s, Line(s, p).cmd)
    decreases |s| - p, 3
  {
    PipelineOk(s, p);
    var c := Pipeline(s, p);
    if c.Ok? {
      BacksOk(s, c.cmd, c.p);
      var b := Backs(s, c.cmd, c.p);
      if Peek(s, b.p) == ';' {
        LineOk(s, GetToken(s, b.p).next);
      }
    }
  }

  // The procedures, each against its function of the grammar

  method SkipSpace(s: string, p: nat) returns (q: nat)
    requires p <= |s|
    ensures q == Skip(s, p)
  {
    q := p;
    while q < |s| && IsSpace(s[q])
      invariant p <= q <= |s| && Skip(s, q) == Skip(s, p)
    {
      q := q + 1;
    }
  }

  method NextToken(s: string, p: nat) returns (t: Token)
    requires p <= |s|
    ensures t == GetToken(s, p)
  {
    var q := SkipSpace(s, p);
    var eq, kind := q, 'a';
    if q == |s| {
      kind := '\0';
    } else if s[q] == '>' {
      kind, eq := '>', q + 1;
      if eq < |s| && s[eq] == '>' {
        kind, eq := '+', eq + 1;
      }
    } else if IsSymbol(s[q]) {
      kind, eq := s[q], q + 1;
    } else {
      while eq < |s| && !IsSpace(s[eq]) && !IsSymbol(s[eq])
        invariant q <= eq <= |s| && WordEnd(s, eq) == WordEnd(s, q)
      {
        eq := eq + 1;
      }
    }
    var next := SkipSpace(s, eq);
    t := Token(kind, Span(q, eq), next);
  }

  method ParseRedirs(s: string, c: Cmd<Span>, p: nat) returns (r: Parsed)
    requires p <= |s|
    ensures r == Redirs(s, c, p)
  {
    var cmd, ps := c, p;
    while IsRedirection(Peek(s, ps))
      invariant p <= ps <= |s| && Redirs(s, cmd, ps) == Redirs(s, c, p)
      decreases |s| - ps
    {
      var op := NextToken(s, ps);
      var file := NextToken(s, op.next);
      if file.kind != 'a' {
        return Err;
      }
      cmd, ps := Redirection(cmd, op.kind, file.span), file.next;
    }
    return Ok(cmd, Skip(s, ps));
  }

  method ParseExec(s: string, p: nat) returns (r: Parsed)
    requires p <= |s|
    ensures r == Simple(s, p)
    decreases |s| - p, 1
  {
    if Peek(s, p) == '(' {
      r := ParseBlock(s, Skip(s, p));
      return;
    }
    r := ParseRedirs(s, Exec([]), p);
    if r.Err? {
      return;
    }
    var argv: seq<Span>, ret, ps := [], r.cmd, r.p;
    while !EndsWords(Peek(s, ps))
      invariant p <= ps <= |s| && Args(s, ret, argv, ps) == Simple(s, p)
      decreases |s| - ps
    {
      var t := NextToken(s, ps);
      if t.kind == '\0' {
        break;
      }
      if t.kind != 'a' {
        return Err;
      }
      argv := argv + [t.span];
      if |argv| >= MAXARGS {
        return Err;
      }
      r := ParseRedirs(s, ret, t.next);
      if r.Err? {
        return;
      }
      ret, ps := r.cmd, r.p;
    }
    return Ok(Fill(ret, argv), Skip(s, ps));
  }

  method ParseBlock(s: string, p: nat) returns (r: Parsed)
    requires p <= |s|
    ensures r == Block(s, p)
    decreases |s| - p, 0
  {
    if Peek(s, p) != '(' {
      return Err;
    }
    var open := NextToken(s, p);
    r := ParseLine(s, open.next);
    if r.Err? || Peek(s, r.p) != ')' {
      return Err;
    }
    var close := NextToken(s, r.p);
    r := ParseRedirs(s, r.cmd, close.next);
  }

  method ParsePipe(s: string, p: nat) returns (r: Parsed)
    requires p <= |s|
    ensures r == Pipeline(s, p)
    decreases |s| - p, 2
  {
    r := ParseExec(s, p);
    if r.Err? {
      return;
    }
    if Peek(s, r.p) != '|' {
      return Ok(r.cmd, Skip(s, r.p));
    }
    var bar := NextToken(s, r.p);
    var rest := ParsePipe(s, bar.next);
    return if rest.Err? then Err else Ok(Pipe(r.cmd, rest.cmd), rest.p);
  }

  method ParseLine(s: string, p: nat) returns (r: Parsed)
    requires p <= |s|
    ensures r == Line(s, p)
    decreases |s| - p, 3
  {
    var first := ParsePipe(s, p);
    if first.Err? {
      return Err;
    }
    var cmd, ps := first.cmd, first.p;
    while Peek(s, ps) == '&'
      invariant first.p <= ps <= |s| && Backs(s, cmd, ps) == Backs(s, first.cmd, first.p)
      decreases |s| - ps
    {
      var amp := NextToken(s, ps);
      cmd, ps := Back(cmd), amp.next;
    }
    ps := SkipSpace(s, ps);
    if Peek(s, ps) != ';' {
      return Ok(cmd, Skip(s, ps));
    }
    var semi := NextToken(s, ps);
    var rest := ParseLine(s, semi.next);
    return if rest.Err? then Err else Ok(List(cmd, rest.cmd), rest.p);
  }

  // nulterminate

  /** Position k ends a word of the tree. */
  ghost predicate IsEnd(c: Cmd<Span>, k: nat) {
    match c
    case Exec(argv) => exists i :: 0 <= i < |argv| && argv[i].eq == k
    case Redir(d, file, mode, fd) => file.eq == k || IsEnd(d, k)
    case Pipe(l, r) => IsEnd(l, k) || IsEnd(r, k)
    case List(l, r) => IsEnd(l, k) || IsEnd(r, k)
    case Back(d) => IsEnd(d, k)
  }

  /** The C string that starts at q is w. */
  ghost predicate ReadsAs(b: seq<char>, q: nat, w: string) {
    q + |w| < |b| && b[q + |w|] == '\0' && forall k :: 0 <= k < |w| ==> b[q + k] == w[k] && w[k] != '\0'
  }

  /** Every argv and file string of the tree reads back as its slice of the line. */
  ghost predicate AllRead(b: seq<char>, s: string, c: Cmd<Span>) {
    match c
    case Exec(argv) => forall i :: 0 <= i < |argv| ==> ReadsAs(b, argv[i].q, Slice(s, argv[i]))
    case Redir(d, file, mode, fd) => ReadsAs(b, file.q, Slice(s, file)) && AllRead(b, s, d)
    case Pipe(l, r) => AllRead(b, s, l) && AllRead(b, s, r)
    case List(l, r) => AllRead(b, s, l) && AllRead(b, s, r)
    case Back(d) => AllRead(b, s, d)
  }

  /** b is the line with its terminator and a 0 at every end of a word of the tree. */
  ghost predicate Terminated(b: seq<char>, s: string, c: Cmd<Span>) {
    |s| < |b| && b[|s|] == '\0' && forall k :: 0 <= k < |s| ==> b[k] == if IsEnd(c, k) then '\0' else s[k]
  }

  lemma {:induction false} EndsAreOutside(s: string, c: Cmd<Span>, k: nat)
    requires SpansOk(s, c) && IsEnd(c, k)
    ensures k <= |s| && (k < |s| ==> !IsWordChar(s[k]))
  {
    match c
    case Exec(argv) =>
      var i :| 0 <= i < |argv| && argv[i].eq == k;
      assert SpanOk(s, argv[i]);
    case Redir(d, file, mode, fd) =>
      if file.eq != k {
        EndsAreOutside(s, d, k);
      }
    case Pipe(l, r) =>
      EndsAreOutside(s, if IsEnd(l, k) then l else r, k);
    case List(l, r) =>
      EndsAreOutside(s, if IsEnd(l, k) then l else r, k);
    case Back(d) =>
      EndsAreOutside(s, d, k);
  }

  lemma SpanReads(b: seq<char>, s: string, c: Cmd<Span>, w: Span)
    requires SpansOk(s, c) && Terminated(b, s, c) && '\0' !in s && SpanOk(s, w) && IsEnd(c, w.eq)
    ensures ReadsAs(b, w.q, Slice(s, w))
  {
    forall k | w.q <= k < w.eq
      ensures b[k] == s[k]
    {
      if IsEnd(c, k) {
        EndsAreOutside(s, c, k);
      }
    }
    forall k | 0 <= k < w.eq - w.q
      ensures Slice(s, w)[k] == s[w.q + k]
    {
    }
  }

  lemma {:induction false} SubtreeReads(b: seq<char>, s: string, c: Cmd<Span>, d: Cmd<Span>)
    requires SpansOk(s, c) && Terminated(b, s, c) && '\0' !in s
    requires SpansOk(s, d) && forall k: nat :: IsEnd(d, k) ==> IsEnd(c, k)
    ensures AllRead(b, s, d)
    decreases d
  {
    match d
    case Exec(argv) =>
      forall i | 0 <= i < |argv|
        ensures ReadsAs(b, argv[i].q, Slice(s, argv[i]))
      {
        assert IsEnd(d, argv[i].eq);
        SpanReads(b, s, c, argv[i]);
      }
    case Redir(e, file, mode, fd) =>
      assert IsEnd(d, file.eq);
      SpanReads(b, s, c, file);
      SubtreeReads(b, s, c, e);
    case Pipe(l, r) =>
      SubtreeReads(b, s, c, l);
      SubtreeReads(b, s, c, r);
    case List(l, r) =>
      SubtreeReads(b, s, c, l);
      SubtreeReads(b, s, c, r);
    case Back(e) =>
      SubtreeReads(b, s, c, e);
  }

  method NulTerminate(buf: array<char>, c: Cmd<Span>, ghost s: string)
    requires |s| < buf.Length && SpansOk(s, c)
    modifies buf
    ensures forall k :: 0 <= k < buf.Length ==> buf[k] == if IsEnd(c, k) then '\0' else old(buf[k])
    decreases c
  {
    match c
    case Exec(argv) =>
      var i := 0;
      while i < |argv|
        invariant 0 <= i <= |argv|
        invariant forall k :: 0 <= k < buf.Length ==>
                    buf[k] == if exists j :: 0 <= j < i && argv[j].eq == k then '\0' else old(buf[k])
      {
        assert SpanOk(s, argv[i]);
        buf[argv[i].eq] := '\0';
        i := i + 1;
      }
    case Redir(d, file, mode, fd) =>
      NulTerminate(buf, d, s);
      buf[file.eq] := '\0';
    case Pipe(l, r) =>
      NulTerminate(buf, l, s);
      NulTerminate(buf, r, s);
    case List(l, r) =>
      NulTerminate(buf, l, s);
      NulTerminate(buf, r, s);
    case Back(d) =>
      NulTerminate(buf, d, s);
  }

  /** parsecmd on a line of n characters: the tree of the grammar, its strings terminated in place. */
  method ParseCmd(buf: array<char>, n: nat) returns (r: Parsed)
    requires n < buf.Length && buf[n] == '\0' && '\0' !in buf[..n]
    modifies buf
    ensures r == Command(old(buf[..n]))
    ensures r.Err? ==> buf[..] == old(buf[..])
    ensures r.Ok? ==> AllRead(buf[..], old(buf[..n]), r.cmd)
  {
    var s := buf[..n];
    r := ParseLine(s, 0);
    if r.Err? || Skip(s, r.p) != n {
      return Err;
    }
    LineOk(s, 0);
    NulTerminate(buf, r.cmd, s);
    SubtreeReads(buf[..], s, r.cmd, r.cmd);
  }
}
