/** The recursive-descent parser over the token list. */
module Parser {
  import opened Syntax

  /** A value and the position behind it. */
  datatype Parsed<+T> = Ok(value: T, next: nat) | Fail

  /** What the lexer hands over: one end marker, at the end. */
  ghost predicate Terminated(t: seq<Tok>) {
    |t| > 0 && t[|t| - 1] == Eof && forall i :: 0 <= i < |t| - 1 ==> t[i] != Eof
  }

  predicate IsKey(k: Tok) {
    k.Ident? || k.Text?
  }

  function KeyOf(k: Tok): string
    requires IsKey(k)
  {
    if k.Ident? then k.name else k.text
  }

  // ------------------------------------------------------------------
  // Specification functions: what each routine returns from position p
  // ------------------------------------------------------------------

  ghost function ReadExpr(t: seq<Tok>, p: nat): (r: Parsed<Value>)
    requires Terminated(t) && p < |t|
    ensures r.Ok? ==> p < r.next < |t|
    decreases |t| - p, 0
  {
    match t[p]
    case Text(s) => Ok(Str(s), p + 1)
    case Num(n) => Ok(Number(n), p + 1)
    case Boolean(b) => Ok(Bool(b), p + 1)
    case LBracket => ReadItems(t, p + 1, [])
    case LBrace => ReadFields(t, p + 1, map[])
    case Ident(i) => if i == "null" then Ok(Null, p + 1) else Fail
    case _ => Fail
  }

  ghost function ReadItems(t: seq<Tok>, p: nat, items: seq<Value>): (r: Parsed<Value>)
    requires Terminated(t) && p < |t|
    ensures r.Ok? ==> p < r.next < |t|
    decreases |t| - p, 1
  {
    if t[p].RBracket? then Ok(Array(items), p + 1)
    else
      var e := ReadExpr(t, p);
      if e.Fail? then Fail
      else if t[e.next].Comma? then ReadItems(t, e.next + 1, items + [e.value])
      else if t[e.next].RBracket? then Ok(Array(items + [e.value]), e.next + 1)
      else Fail
  }

  ghost function ReadFields(t: seq<Tok>, p: nat, fields: map<string, Value>): (r: Parsed<Value>)
    requires Terminated(t) && p < |t|
    ensures r.Ok? ==> p < r.next < |t|
    decreases |t| - p, 1
  {
    if t[p].RBrace? then Ok(Object(fields), p + 1)
    else if IsKey(t[p]) && t[p + 1].Equals? then
      var e := ReadExpr(t, p + 2);
      if e.Fail? || KeyOf(t[p]) in fields then Fail
      else ReadFields(t, e.next, fields[KeyOf(t[p]) := e.value])
    else Fail
  }

  /** The first position from `p` on that holds no string. */
  ghost function LabelsEnd(t: seq<Tok>, p: nat): (q: nat)
    requires Terminated(t) && p < |t|
    ensures p <= q < |t| && !t[q].Text?
    ensures forall i :: p <= i < q ==> t[i].Text?
    decreases |t| - p
  {
    if t[p].Text? then LabelsEnd(t, p + 1) else p
  }

  ghost function Labels(t: seq<Tok>, p: nat, q: nat): (s: seq<string>)
    requires p <= q <= |t| && forall i :: p <= i < q ==> t[i].Text?
    ensures |s| == q - p
  {
    seq(q - p, (i: nat) requires i < q - p => t[p + i].text)
  }

  predicate Bodyless(name: string, labels: nat, next: Tok) {
    name == "import" && 1 <= labels <= 2 && !next.LBrace?
  }

  ghost function ReadBlock(t: seq<Tok>, p: nat): (r: Parsed<Block>)
    requires Terminated(t) && p < |t|
    ensures r.Ok? ==> p < r.next < |t|
    decreases |t| - p, 0
  {
    if !t[p].Ident? then Fail
    else
      var q := LabelsEnd(t, p + 1);
      var block := Block(t[p].name, Labels(t, p + 1, q), map[], []);
      if Bodyless(t[p].name, q - p - 1, t[q]) then Ok(block, q)
      else if !t[q].LBrace? then Fail
      else ReadBody(t, q + 1, block)
  }

  ghost function ReadBody(t: seq<Tok>, p: nat, block: Block): (r: Parsed<Block>)
    requires Terminated(t) && p < |t|
    ensures r.Ok? ==> p < r.next < |t|
    decreases |t| - p, 1
  {
    if t[p].RBrace? then Ok(block, p + 1)
    else if IsKey(t[p]) && t[p + 1].Equals? then
      var e := ReadExpr(t, p + 2);
      if e.Fail? || KeyOf(t[p]) in block.attributes then Fail
      else ReadBody(t, e.next, block.(attributes := block.attributes[KeyOf(t[p]) := e.value]))
    else if t[p].Ident? then
      var child := ReadBlock(t, p);
      if child.Fail? then Fail else ReadBody(t, child.next, block.(blocks := block.blocks + [child.value]))
    else Fail
  }

  ghost function ReadFile(t: seq<Tok>, p: nat, blocks: seq<Block>): (r: Parsed<seq<Block>>)
    requires Terminated(t) && p < |t|
    ensures r.Ok? ==> r.next == |t| - 1
    decreases |t| - p
  {
    if t[p].Eof? then Ok(blocks, p)
    else
      var b := ReadBlock(t, p);
      if b.Fail? then Fail else ReadFile(t, b.next, blocks + [b.value])
  }

  // ------------------------------------------------------------------
  // The parser object
  // ------------------------------------------------------------------

  class TokenParser {
    const tokens: seq<Tok>
    var pos: nat

    ghost predicate Valid()
      reads this
    {
      Terminated(tokens) && pos < |tokens|
    }

    constructor (tokens: seq<Tok>)
      requires Terminated(tokens)
      ensures Valid() && this.tokens == tokens && pos == 0
    {
      this.tokens := tokens;
      this.pos := 0;
    }

    /** Takes the current token; never steps over the end marker. */
    method Bump() returns (k: Tok)
      requires Valid() && !tokens[pos].Eof?
      modifies this`pos
      ensures Valid() && pos == old(pos) + 1 && k == tokens[old(pos)]
    {
      pos := pos + 1;
      k := tokens[pos - 1];
    }

    /** A routine that started at `start` and met its specification. */
    ghost predicate Met<T>(r: Parsed<T>, spec: Parsed<T>)
      reads this
    {
      Valid() && r == spec && (r.Ok? ==> pos == r.next)
    }

    method ParseExpr() returns (r: Parsed<Value>)
      requires Valid()
      modifies this`pos
      ensures Met(r, ReadExpr(tokens, old(pos)))
      decreases |tokens| - pos, 1
    {
      match tokens[pos]
      case Text(s) =>
        var _ := Bump();
        r := Ok(Str(s), pos);
      case Num(n) =>
        var _ := Bump();
        r := Ok(Number(n), pos);
      case Boolean(b) =>
        var _ := Bump();
        r := Ok(Bool(b), pos);
      case LBracket =>
        r := ParseArray();
      case LBrace =>
        r := ParseObject();
      case Ident(i) =>
        if i == "null" {
          var _ := Bump();
          r := Ok(Null, pos);
        } else {
          r := Fail;
        }
      case _ =>
        r := Fail;
    }

    method ParseArray() returns (r: Parsed<Value>)
      requires Valid() && tokens[pos].LBracket?
      modifies this`pos
      ensures Met(r, ReadItems(tokens, old(pos) + 1, []))
      decreases |tokens| - pos, 0
    {
      ghost var start := pos;
      var _ := Bump();
      var items := [];
      while true
        invariant Valid() && pos > start
        invariant ReadItems(tokens, start + 1, []) == ReadItems(tokens, pos, items)
        decreases |tokens| - pos
      {
        if tokens[pos].RBracket? {
          var _ := Bump();
          break;
        }
        var e := ParseExpr();
        if e.Fail? {
          return Fail;
        }
        items := items + [e.value];
        if tokens[pos].Comma? {
          var _ := Bump();
        } else if tokens[pos].RBracket? {
          var _ := Bump();
          break;
        } else {
          return Fail;
        }
      }
      r := Ok(Array(items), pos);
    }

    method ParseObject() returns (r: Parsed<Value>)
      requires Valid() && tokens[pos].LBrace?
      modifies this`pos
      ensures Met(r, ReadFields(tokens, old(pos) + 1, map[]))
      decreases |tokens| - pos, 0
    {
      ghost var start := pos;
      var _ := Bump();
      var fields := map[];
      while true
        invariant Valid() && pos > start
        invariant ReadFields(tokens, start + 1, map[]) == ReadFields(tokens, pos, fields)
        decreases |tokens| - pos
      {
        if tokens[pos].RBrace? {
          var _ := Bump();
          break;
        }
        if !IsKey(tokens[pos]) || !tokens[pos + 1].Equals? {
          return Fail;
        }
        var key := KeyOf(tokens[pos]);
        var _ := Bump();
        var _ := Bump();
        var e := ParseExpr();
        if e.Fail? {
          return Fail;
        }
        if key in fields {
          return Fail;
        }
        fields := fields[key := e.value];
      }
      r := Ok(Object(fields), pos);
    }

    method ParseBlock() returns (r: Parsed<Block>)
      requires Valid() && !tokens[pos].Eof?
      modifies this`pos
      ensures Met(r, ReadBlock(tokens, old(pos)))
      decreases |tokens| - pos, 0
    {
      ghost var start := pos;
      var first := Bump();
      if !first.Ident? {
        return Fail;
      }
      var labels := [];
      while tokens[pos].Text?
        invariant Valid() && pos > start
        invariant LabelsEnd(tokens, start + 1) == LabelsEnd(tokens, pos)
        invariant labels == Labels(tokens, start + 1, pos)
        decreases |tokens| - pos
      {
        var s := Bump();
        labels := labels + [s.text];
      }
      if Bodyless(first.name, |labels|, tokens[pos]) {
        return Ok(Block(first.name, labels, map[], []), pos);
      }
      if !tokens[pos].LBrace? {
        return Fail;
      }
      var _ := Bump();
      r := ParseBody(Block(first.name, labels, map[], []));
    }

    method ParseBody(block0: Block) returns (r: Parsed<Block>)
      requires Valid()
      modifies this`pos
      ensures Met(r, ReadBody(tokens, old(pos), block0))
      decreases |tokens| - pos, 1
    {
      ghost var start := pos;
      var block := block0;
      while true
        invariant Valid() && pos >= start
        invariant ReadBody(tokens, start, block0) == ReadBody(tokens, pos, block)
        decreases |tokens| - pos
      {
        if tokens[pos].RBrace? {
          var _ := Bump();
          return Ok(block, pos);
        }
        if IsKey(tokens[pos]) && tokens[pos + 1].Equals? {
          var key := KeyOf(tokens[pos]);
          var _ := Bump();
          var _ := Bump();
          var e := ParseExpr();
          if e.Fail? {
            return Fail;
          }
          if key in block.attributes {
            return Fail;
          }
          block := block.(attributes := block.attributes[key := e.value]);
        } else if tokens[pos].Ident? {
          var child := ParseBlock();
          if child.Fail? {
            return Fail;
          }
          block := block.(blocks := block.blocks + [child.value]);
        } else {
          return Fail;
        }
      }
    }
  }

  method ParseFile(tokens: seq<Tok>) returns (r: Parsed<seq<Block>>)
    requires Terminated(tokens)
    ensures r == ReadFile(tokens, 0, [])
  {
    var p := new TokenParser(tokens);
    var blocks := [];
    while !tokens[p.pos].Eof?
      invariant p.Valid() && p.tokens == tokens
      invariant ReadFile(tokens, 0, []) == ReadFile(tokens, p.pos, blocks)
      decreases |tokens| - p.pos
    {
      var b := p.ParseBlock();
      if b.Fail? {
        return Fail;
      }
      blocks := blocks + [b.value];
    }
    r := Ok(blocks, p.pos);
  }
}
