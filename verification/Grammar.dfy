/** The block language as a grammar: derivation trees, the tokens they yield
    and the values they denote.  Nothing here mentions the parser. */
module Grammar {
  import opened Syntax

  datatype Expr =
    | StrExpr(s: string)
    | NumExpr(n: int)
    | BoolExpr(b: bool)
    | NullExpr
    | ArrayExpr(items: seq<Expr>, trailing: bool)
    | ObjectExpr(pairs: seq<Pair>)

  /** `key = value`, with the key bare or quoted. */
  datatype Pair = Pair(quoted: bool, key: string, value: Expr)

  datatype Item = Attribute(pair: Pair) | Child(block: Tree)

  /** A bodyless import directive, or a block with braces. */
  datatype Tree = Directive(labels: seq<string>) | Braced(name: string, labels: seq<string>, items: seq<Item>)

  // ------------------------------------------------------------------
  // Tokens
  // ------------------------------------------------------------------

  function ExprTokens(e: Expr): (t: seq<Tok>)
    ensures |t| > 0
    decreases e, 1
  {
    match e
    case StrExpr(s) => [Text(s)]
    case NumExpr(n) => [Num(n)]
    case BoolExpr(b) => [Boolean(b)]
    case NullExpr => [Ident("null")]
    case ArrayExpr(items, trailing) => [LBracket] + ItemTokens(items, trailing)
    case ObjectExpr(pairs) => [LBrace] + PairsTokens(pairs)
  }

  /** The elements and the closing bracket. */
  function ItemTokens(items: seq<Expr>, trailing: bool): (t: seq<Tok>)
    ensures |t| > 0
    decreases items, 0
  {
    if items == [] then [RBracket]
    else if |items| == 1 then ExprTokens(items[0]) + (if trailing then [Comma, RBracket] else [RBracket])
    else ExprTokens(items[0]) + ([Comma] + ItemTokens(items[1..], trailing))
  }

  function PairTokens(p: Pair): (t: seq<Tok>)
    ensures |t| > 0
    decreases p, 2
  {
    [if p.quoted then Text(p.key) else Ident(p.key), Equals] + ExprTokens(p.value)
  }

  /** The pairs and the closing brace. */
  function PairsTokens(pairs: seq<Pair>): (t: seq<Tok>)
    ensures |t| > 0
    decreases pairs, 0
  {
    if pairs == [] then [RBrace] else PairTokens(pairs[0]) + PairsTokens(pairs[1..])
  }

  function LabelTokens(labels: seq<string>): (t: seq<Tok>)
    ensures |t| == |labels|
  {
    seq(|labels|, (i: nat) requires i < |labels| => Text(labels[i]))
  }

  function TreeTokens(b: Tree): (t: seq<Tok>)
    ensures |t| > 0
    decreases b, 1
  {
    match b
    case Directive(labels) => [Ident("import")] + LabelTokens(labels)
    case Braced(name, labels, items) => [Ident(name)] + (LabelTokens(labels) + ([LBrace] + BodyTokens(items)))
  }

  function EntryTokens(i: Item): (t: seq<Tok>)
    ensures |t| > 0
    decreases i, 2
  {
    match i
    case Attribute(pair) => PairTokens(pair)
    case Child(block) => TreeTokens(block)
  }

  /** The items and the closing brace. */
  function BodyTokens(items: seq<Item>): (t: seq<Tok>)
    ensures |t| > 0
    decreases items, 0
  {
    if items == [] then [RBrace] else EntryTokens(items[0]) + BodyTokens(items[1..])
  }

  /** The blocks of a file and the end marker. */
  function FileTokens(blocks: seq<Tree>): (t: seq<Tok>)
    ensures |t| > 0
  {
    if blocks == [] then [Eof] else TreeTokens(blocks[0]) + FileTokens(blocks[1..])
  }

  // ------------------------------------------------------------------
  // What may be derived
  // ------------------------------------------------------------------

  ghost predicate GoodExpr(e: Expr)
    decreases e
  {
    match e
    case ArrayExpr(items, trailing) => (trailing ==> items != []) && forall i :: 0 <= i < |items| ==> GoodExpr(items[i])
    case ObjectExpr(pairs) => DistinctKeys(pairs) && forall i :: 0 <= i < |pairs| ==> GoodExpr(pairs[i].value)
    case _ => true
  }

  ghost predicate DistinctKeys(pairs: seq<Pair>) {
    forall i, j :: 0 <= i < j < |pairs| ==> pairs[i].key != pairs[j].key
  }

  /** An import directive must not run into a quoted key, which would read as
      one more label. */
  predicate MayFollow(a: Item, b: Item) {
    a.Child? && a.block.Directive? ==> !(b.Attribute? && b.pair.quoted)
  }

  ghost predicate GoodTree(b: Tree)
    decreases b, 1
  {
    match b
    case Directive(labels) => 1 <= |labels| <= 2
    case Braced(_, _, items) => GoodItems(items)
  }

  ghost predicate GoodItems(items: seq<Item>)
    decreases items, 0
  {
    && (forall i :: 0 <= i < |items| ==> GoodItem(items[i]))
    && (forall i :: 0 < i < |items| ==> MayFollow(items[i - 1], items[i]))
    && (forall i, j :: 0 <= i < j < |items| && items[i].Attribute? && items[j].Attribute?
                       ==> items[i].pair.key != items[j].pair.key)
  }

  ghost predicate GoodItem(i: Item)
    decreases i, 2
  {
    match i
    case Attribute(pair) => GoodExpr(pair.value)
    case Child(block) => GoodTree(block)
  }

  ghost predicate GoodFile(blocks: seq<Tree>) {
    forall i :: 0 <= i < |blocks| ==> GoodTree(blocks[i])
  }

  // ------------------------------------------------------------------
  // What it denotes
  // ------------------------------------------------------------------

  function ExprValue(e: Expr): Value
    decreases e, 1
  {
    match e
    case StrExpr(s) => Str(s)
    case NumExpr(n) => Number(n)
    case BoolExpr(b) => Bool(b)
    case NullExpr => Null
    case ArrayExpr(items, _) => Array(ItemValues(items))
    case ObjectExpr(pairs) => Object(PairValues(pairs))
  }

  function ItemValues(items: seq<Expr>): (vs: seq<Value>)
    decreases items, 0
  {
    if items == [] then [] else [ExprValue(items[0])] + ItemValues(items[1..])
  }

  /** Last pair outermost; with distinct keys the order does not matter. */
  function PairValues(pairs: seq<Pair>): map<string, Value>
    decreases pairs, 0
  {
    if pairs == [] then map[] else map[pairs[0].key := ExprValue(pairs[0].value)] + PairValues(pairs[1..])
  }

  function TreeBlock(b: Tree): Block
    decreases b, 1
  {
    match b
    case Directive(labels) => Block("import", labels, map[], [])
    case Braced(name, labels, items) => Block(name, labels, BodyAttributes(items), BodyBlocks(items))
  }

  function EntryAttributes(i: Item): map<string, Value> {
    if i.Attribute? then map[i.pair.key := ExprValue(i.pair.value)] else map[]
  }

  function BodyAttributes(items: seq<Item>): map<string, Value> {
    if items == [] then map[] else EntryAttributes(items[0]) + BodyAttributes(items[1..])
  }

  function EntryBlocks(i: Item): seq<Block>
    decreases i, 2
  {
    if i.Child? then [TreeBlock(i.block)] else []
  }

  function BodyBlocks(items: seq<Item>): seq<Block>
    decreases items, 0
  {
    if items == [] then [] else EntryBlocks(items[0]) + BodyBlocks(items[1..])
  }

  function FileBlocks(blocks: seq<Tree>): seq<Block> {
    if blocks == [] then [] else [TreeBlock(blocks[0])] + FileBlocks(blocks[1..])
  }
}
