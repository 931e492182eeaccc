/** The parser accepts exactly the token lists the grammar derives, and returns
    what the derivation denotes. */
module ParserCorrect {
  import opened Syntax
  import opened Grammar
  import opened Parser

  /** `s` stands in `t` from position `p` on. */
  ghost predicate Stands(t: seq<Tok>, p: nat, s: seq<Tok>) {
    p + |s| <= |t| && t[p..p + |s|] == s
  }

  lemma StandsSplit(t: seq<Tok>, p: nat, a: seq<Tok>, b: seq<Tok>)
    ensures Stands(t, p, a + b) <==> Stands(t, p, a) && Stands(t, p + |a|, b)
  {
    if Stands(t, p, a + b) {
      assert t[p..p + |a|] == (a + b)[..|a|] == a;
      assert t[p + |a|..p + |a| + |b|] == (a + b)[|a|..] == b;
    }
    if Stands(t, p, a) && Stands(t, p + |a|, b) {
      assert t[p..p + |a| + |b|] == t[p..p + |a|] + t[p + |a|..p + |a| + |b|];
    }
  }

  lemma StandsHead(t: seq<Tok>, p: nat, k: Tok, b: seq<Tok>)
    ensures Stands(t, p, [k] + b) <==> p < |t| && t[p] == k && Stands(t, p + 1, b)
  {
    StandsSplit(t, p, [k], b);
    if p < |t| {
      assert t[p..p + 1] == [t[p]];
    }
  }

  lemma StandsOne(t: seq<Tok>, p: nat, k: Tok)
    ensures Stands(t, p, [k]) <==> p < |t| && t[p] == k
  {
    if p < |t| {
      assert t[p..p + 1] == [t[p]];
    }
  }

  // ------------------------------------------------------------------
  // Accepted input has a derivation
  // ------------------------------------------------------------------

  lemma {:induction false} ExprSound(t: seq<Tok>, p: nat) returns (e: Expr)
    requires Terminated(t) && p < |t| && ReadExpr(t, p).Ok?
    ensures GoodExpr(e) && Stands(t, p, ExprTokens(e)) && p + |ExprTokens(e)| == ReadExpr(t, p).next
    ensures ExprValue(e) == ReadExpr(t, p).value
    decreases |t| - p, 0
  {
    assert t[p..p + 1] == [t[p]];
    match t[p]
    case Text(s) => e := StrExpr(s);
    case Num(n) => e := NumExpr(n);
    case Boolean(b) => e := BoolExpr(b);
    case Ident(_) => e := NullExpr;
    case LBracket =>
      var items, trailing := ItemsSound(t, p + 1, []);
      e := ArrayExpr(items, trailing);
      assert [] + ItemValues(items) == ItemValues(items);
      StandsHead(t, p, LBracket, ItemTokens(items, trailing));
    case LBrace =>
      var pairs := FieldsSound(t, p + 1, map[]);
      e := ObjectExpr(pairs);
      assert map[] + PairValues(pairs) == PairValues(pairs);
      StandsHead(t, p, LBrace, PairsTokens(pairs));
  }

  ghost predicate GoodItemsList(items: seq<Expr>) {
    forall i :: 0 <= i < |items| ==> GoodExpr(items[i])
  }

  ghost predicate GoodPairs(pairs: seq<Pair>) {
    DistinctKeys(pairs) && forall i :: 0 <= i < |pairs| ==> GoodExpr(pairs[i].value)
  }

  lemma {:induction false} ItemsSound(t: seq<Tok>, p: nat, acc: seq<Value>) returns (items: seq<Expr>, trailing: bool)
    requires Terminated(t) && p < |t| && ReadItems(t, p, acc).Ok?
    ensures GoodItemsList(items) && (trailing ==> items != [])
    ensures Stands(t, p, ItemTokens(items, trailing)) && p + |ItemTokens(items, trailing)| == ReadItems(t, p, acc).next
    ensures ReadItems(t, p, acc).value == Array(acc + ItemValues(items))
    decreases |t| - p, 1
  {
    hide Stands, ExprTokens, ItemTokens, ExprValue, ItemValues, GoodExpr, ReadExpr;
    if t[p].RBracket? {
      items, trailing := [], false;
      StandsOne(t, p, RBracket);
      ItemsNone(acc);
    } else {
      var e := ExprSound(t, p);
      var q := ReadExpr(t, p).next;
      if t[q].Comma? {
        var rest, more := ItemsSound(t, q + 1, acc + [ExprValue(e)]);
        items, trailing := [e] + rest, rest == [] || more;
        ItemsCons(e, rest, trailing, acc);
        StandsHead(t, q, Comma, ItemTokens(rest, more));
        StandsSplit(t, p, ExprTokens(e), [Comma] + ItemTokens(rest, more));
      } else {
        items, trailing := [e], false;
        ItemsLast(e);
        StandsOne(t, q, RBracket);
        StandsSplit(t, p, ExprTokens(e), [RBracket]);
      }
    }
  }

  lemma ItemsNone(acc: seq<Value>)
    ensures ItemTokens([], false) == [RBracket] && acc + ItemValues([]) == acc
  {
  }

  lemma ItemsLast(e: Expr)
    ensures ItemTokens([e], false) == ExprTokens(e) + [RBracket] && ItemValues([e]) == [ExprValue(e)]
  {
    assert [e][1..] == [];
    assert ItemValues([e]) == [ExprValue(e)] + ItemValues([]);
  }

  lemma ItemsCons(e: Expr, rest: seq<Expr>, trailing: bool, acc: seq<Value>)
    requires rest == [] ==> trailing
    ensures ItemTokens([e] + rest, trailing) == ExprTokens(e) + ([Comma] + ItemTokens(rest, rest != [] && trailing))
    ensures acc + [ExprValue(e)] + ItemValues(rest) == acc + ItemValues([e] + rest)
  {
    hide ExprTokens, ExprValue;
    assert ([e] + rest)[1..] == rest;
    assert ItemValues([e] + rest) == [ExprValue(e)] + ItemValues(rest);
    if rest == [] {
      assert [Comma] + ItemTokens(rest, false) == [Comma, RBracket];
    }
  }

  lemma {:induction false} FieldsSound(t: seq<Tok>, p: nat, acc: map<string, Value>) returns (pairs: seq<Pair>)
    requires Terminated(t) && p < |t| && ReadFields(t, p, acc).Ok?
    ensures GoodPairs(pairs) && forall i :: 0 <= i < |pairs| ==> pairs[i].key !in acc
    ensures Stands(t, p, PairsTokens(pairs)) && p + |PairsTokens(pairs)| == ReadFields(t, p, acc).next
    ensures ReadFields(t, p, acc).value == Object(acc + PairValues(pairs))
    decreases |t| - p, 1
  {
    hide Stands, PairsTokens, PairTokens, ExprTokens, ExprValue, PairValues, GoodExpr, ReadExpr;
    if t[p].RBrace? {
      pairs := [];
      StandsOne(t, p, RBrace);
      PairsNone(acc);
    } else {
      var pair := PairSound(t, p);
      var q := ReadExpr(t, p + 2).next;
      var more := acc[pair.key := ExprValue(pair.value)];
      var rest := FieldsSound(t, q, more);
      pairs := [pair] + rest;
      PairsCons(pair, rest, acc);
      StandsSplit(t, p, PairTokens(pair), PairsTokens(rest));
    }
  }

  lemma PairsNone(acc: map<string, Value>)
    ensures PairsTokens([]) == [RBrace] && acc + PairValues([]) == acc
  {
  }

  lemma PairsCons(pair: Pair, rest: seq<Pair>, acc: map<string, Value>)
    ensures PairsTokens([pair] + rest) == PairTokens(pair) + PairsTokens(rest)
    ensures acc + PairValues([pair] + rest) == acc[pair.key := ExprValue(pair.value)] + PairValues(rest)
  {
    hide PairTokens, ExprValue;
    assert ([pair] + rest)[1..] == rest;
  }

  lemma {:induction false} PairSound(t: seq<Tok>, p: nat) returns (pair: Pair)
    requires Terminated(t) && p < |t| && IsKey(t[p]) && t[p + 1].Equals? && ReadExpr(t, p + 2).Ok?
    ensures GoodExpr(pair.value) && pair.key == KeyOf(t[p]) && pair.quoted == t[p].Text?
    ensures Stands(t, p, PairTokens(pair)) && p + |PairTokens(pair)| == ReadExpr(t, p + 2).next
    ensures ExprValue(pair.value) == ReadExpr(t, p + 2).value
    decreases |t| - p, 0
  {
    var e := ExprSound(t, p + 2);
    pair := Pair(t[p].Text?, KeyOf(t[p]), e);
    assert t[p..p + 2] == [t[p], Equals];
    StandsSplit(t, p, [t[p], Equals], ExprTokens(e));
  }

  lemma LabelsStand(t: seq<Tok>, p: nat, q: nat)
    requires p <= q <= |t| && forall i :: p <= i < q ==> t[i].Text?
    ensures Stands(t, p, LabelTokens(Labels(t, p, q)))
  {
    assert t[p..q] == LabelTokens(Labels(t, p, q));
  }

  lemma {:induction false} BlockSound(t: seq<Tok>, p: nat) returns (b: Tree)
    requires Terminated(t) && p < |t| && ReadBlock(t, p).Ok?
    ensures GoodTree(b) && Stands(t, p, TreeTokens(b)) && p + |TreeTokens(b)| == ReadBlock(t, p).next
    ensures TreeBlock(b) == ReadBlock(t, p).value
    ensures b.Directive? ==> !t[ReadBlock(t, p).next].Text?
    decreases |t| - p, 0
  {
    var name := t[p].name;
    var q := LabelsEnd(t, p + 1);
    var labels := Labels(t, p + 1, q);
    ReadBlockCases(t, p);
    if Bodyless(name, |labels|, t[q]) {
      b := Directive(labels);
      DirectiveSound(t, p);
    } else {
      hide Stands, BodyTokens, GoodItems, ReadBody, ReadBlock, TreeTokens, TreeBlock, GoodTree, Extended, Bodyless;
      var items := BodySound(t, q + 1, Block(name, labels, map[], []));
      b := Braced(name, labels, items);
      BracedSound(t, p, items);
    }
  }

  lemma DirectiveSound(t: seq<Tok>, p: nat)
    requires Terminated(t) && p < |t| && t[p] == Ident("import")
    ensures var q := LabelsEnd(t, p + 1);
            var b := Directive(Labels(t, p + 1, q));
            Stands(t, p, TreeTokens(b)) && p + |TreeTokens(b)| == q
  {
    var q := LabelsEnd(t, p + 1);
    var labels := Labels(t, p + 1, q);
    LabelsStand(t, p + 1, q);
    hide Stands, LabelTokens, LabelsEnd, Labels;
    StandsHead(t, p, Ident("import"), LabelTokens(labels));
  }

  lemma BracedSound(t: seq<Tok>, p: nat, items: seq<Item>)
    requires Terminated(t) && p < |t| && t[p].Ident? && t[LabelsEnd(t, p + 1)].LBrace?
    requires GoodItems(items) && Stands(t, LabelsEnd(t, p + 1) + 1, BodyTokens(items))
    ensures var q := LabelsEnd(t, p + 1);
            var labels := Labels(t, p + 1, q);
            var b := Braced(t[p].name, labels, items);
            && GoodTree(b) && Stands(t, p, TreeTokens(b)) && p + |TreeTokens(b)| == q + 1 + |BodyTokens(items)|
            && TreeBlock(b) == Extended(Block(t[p].name, labels, map[], []), items)
  {
    var q := LabelsEnd(t, p + 1);
    var labels := Labels(t, p + 1, q);
    LabelsStand(t, p + 1, q);
    hide Stands, BodyTokens, GoodItems, LabelTokens, Labels, LabelsEnd, TreeTokens, TreeBlock, GoodTree, Extended;
    BracedMeaning(t[p].name, labels, items);
    BracedStands(t, p, t[p].name, labels, items);
  }

  /** The two ways in which a block is accepted. */
  lemma ReadBlockCases(t: seq<Tok>, p: nat)
    requires Terminated(t) && p < |t| && ReadBlock(t, p).Ok?
    ensures t[p].Ident?
    ensures var q := LabelsEnd(t, p + 1);
            var block := Block(t[p].name, Labels(t, p + 1, q), map[], []);
            if Bodyless(t[p].name, q - p - 1, t[q])
            then t[p].name == "import" && 1 <= q - p - 1 <= 2 && ReadBlock(t, p) == Ok(block, q)
            else t[q].LBrace? && ReadBlock(t, p) == ReadBody(t, q + 1, block)
  {
    hide ReadBody, Labels, LabelsEnd;
  }

  lemma BracedMeaning(name: string, labels: seq<string>, items: seq<Item>)
    ensures TreeBlock(Braced(name, labels, items)) == Block(name, labels, BodyAttributes(items), BodyBlocks(items))
    ensures Extended(Block(name, labels, map[], []), items) == TreeBlock(Braced(name, labels, items))
    ensures GoodTree(Braced(name, labels, items)) == GoodItems(items)
    ensures |TreeTokens(Braced(name, labels, items))| == 2 + |labels| + |BodyTokens(items)|
  {
    hide BodyTokens, BodyAttributes, BodyBlocks, GoodItems;
    assert map[] + BodyAttributes(items) == BodyAttributes(items);
    assert [] + BodyBlocks(items) == BodyBlocks(items);
  }

  lemma BracedStands(t: seq<Tok>, p: nat, name: string, labels: seq<string>, items: seq<Item>)
    ensures Stands(t, p, TreeTokens(Braced(name, labels, items)))
       <==> (&& p < |t| && t[p] == Ident(name)
             && Stands(t, p + 1, LabelTokens(labels))
             && p + 1 + |labels| < |t| && t[p + 1 + |labels|] == LBrace
             && Stands(t, p + 2 + |labels|, BodyTokens(items)))
  {
    hide Stands, BodyTokens, LabelTokens;
    var tail := [LBrace] + BodyTokens(items);
    StandsHead(t, p + 1 + |labels|, LBrace, BodyTokens(items));
    StandsSplit(t, p + 1, LabelTokens(labels), tail);
    StandsHead(t, p, Ident(name), LabelTokens(labels) + tail);
  }

  /** Appending the items to a block already read in part. */
  ghost function Extended(block: Block, items: seq<Item>): Block {
    Block(block.name, block.labels, block.attributes + BodyAttributes(items), block.blocks + BodyBlocks(items))
  }

  ghost predicate FreshKeys(items: seq<Item>, taken: map<string, Value>) {
    forall i :: 0 <= i < |items| && items[i].Attribute? ==> items[i].pair.key !in taken
  }

  lemma {:induction false} BodySound(t: seq<Tok>, p: nat, block: Block) returns (items: seq<Item>)
    requires Terminated(t) && p < |t| && ReadBody(t, p, block).Ok?
    ensures GoodItems(items) && FreshKeys(items, block.attributes)
    ensures Stands(t, p, BodyTokens(items)) && p + |BodyTokens(items)| == ReadBody(t, p, block).next
    ensures ReadBody(t, p, block).value == Extended(block, items)
    decreases |t| - p, 1
  {
    hide Stands, BodyTokens, PairTokens, TreeTokens, ExprTokens, ExprValue, Extended, TreeBlock, GoodExpr, GoodTree,
      ReadExpr, ReadBlock;
    if t[p].RBrace? {
      items := [];
      StandsOne(t, p, RBrace);
      BodyNone(block);
    } else if IsKey(t[p]) && t[p + 1].Equals? {
      var pair := PairSound(t, p);
      var q := ReadExpr(t, p + 2).next;
      var more := block.(attributes := block.attributes[pair.key := ExprValue(pair.value)]);
      var rest := BodySound(t, q, more);
      items := [Attribute(pair)] + rest;
      ConsGood(Attribute(pair), rest, block.attributes);
      ConsExtends(block, Attribute(pair), rest);
      StandsSplit(t, p, PairTokens(pair), BodyTokens(rest));
    } else {
      var child := BlockSound(t, p);
      var q := ReadBlock(t, p).next;
      var more := block.(blocks := block.blocks + [TreeBlock(child)]);
      var rest := BodySound(t, q, more);
      items := [Child(child)] + rest;
      if child.Directive? && rest != [] {
        BodyHead(t, q, rest);
      }
      ConsGood(Child(child), rest, block.attributes);
      ConsExtends(block, Child(child), rest);
      StandsSplit(t, p, TreeTokens(child), BodyTokens(rest));
    }
  }

  lemma BodyNone(block: Block)
    ensures BodyTokens([]) == [RBrace] && Extended(block, []) == block
  {
    assert block.attributes + BodyAttributes([]) == block.attributes;
  }

  /** The first token of a body shows whether it starts with a quoted key. */
  lemma BodyHead(t: seq<Tok>, q: nat, rest: seq<Item>)
    requires rest != [] && Stands(t, q, BodyTokens(rest))
    ensures q < |t| && (rest[0].Attribute? && rest[0].pair.quoted ==> t[q].Text?)
  {
    StandsSplit(t, q, EntryTokens(rest[0]), BodyTokens(rest[1..]));
    assert t[q] == EntryTokens(rest[0])[0];
  }

  lemma ConsGood(first: Item, rest: seq<Item>, taken: map<string, Value>)
    requires GoodItem(first) && GoodItems(rest)
    requires rest != [] ==> MayFollow(first, rest[0])
    requires first.Attribute? ==> first.pair.key !in taken
    requires FreshKeys(rest, if first.Attribute? then taken[first.pair.key := Null] else taken)
    ensures GoodItems([first] + rest) && FreshKeys([first] + rest, taken)
  {
    var items := [first] + rest;
    forall i | 0 < i < |items|
      ensures MayFollow(items[i - 1], items[i])
    {
      if i > 1 {
        assert items[i - 1] == rest[i - 2] && items[i] == rest[i - 1];
      }
    }
  }

  lemma ConsExtends(block: Block, first: Item, rest: seq<Item>)
    ensures first.Attribute? ==>
              Extended(block, [first] + rest)
              == Extended(block.(attributes := block.attributes[first.pair.key := ExprValue(first.pair.value)]), rest)
    ensures first.Child? ==>
              Extended(block, [first] + rest)
              == Extended(block.(blocks := block.blocks + [TreeBlock(first.block)]), rest)
    ensures BodyTokens([first] + rest) == EntryTokens(first) + BodyTokens(rest)
  {
    hide ExprValue, TreeBlock, EntryTokens;
    assert ([first] + rest)[1..] == rest;
    var attributes, blocks := block.attributes + EntryAttributes(first), block.blocks + EntryBlocks(first);
    assert block.attributes + (EntryAttributes(first) + BodyAttributes(rest)) == attributes + BodyAttributes(rest);
    assert block.blocks + (EntryBlocks(first) + BodyBlocks(rest)) == blocks + BodyBlocks(rest);
    if first.Attribute? {
      assert attributes == block.attributes[first.pair.key := ExprValue(first.pair.value)];
      assert blocks == block.blocks;
    } else {
      assert attributes == block.attributes;
      assert blocks == block.blocks + [TreeBlock(first.block)];
    }
  }

  lemma {:induction false} FileSound(t: seq<Tok>, p: nat, acc: seq<Block>) returns (trees: seq<Tree>)
    requires Terminated(t) && p < |t| && ReadFile(t, p, acc).Ok?
    ensures GoodFile(trees) && t[p..] == FileTokens(trees)
    ensures ReadFile(t, p, acc).value == acc + FileBlocks(trees)
    decreases |t| - p
  {
    hide TreeTokens, TreeBlock, GoodTree, ReadBlock;
    if t[p].Eof? {
      trees := [];
      assert t[p..] == [Eof];
    } else {
      var b := BlockSound(t, p);
      var q := ReadBlock(t, p).next;
      var rest := FileSound(t, q, acc + [TreeBlock(b)]);
      trees := [b] + rest;
      assert trees[1..] == rest;
      assert t[p..] == t[p..q] + t[q..];
      assert acc + [TreeBlock(b)] + FileBlocks(rest) == acc + FileBlocks(trees);
    }
  }

  // ------------------------------------------------------------------
  // Every derivation is accepted
  // ------------------------------------------------------------------

  lemma {:induction false} ExprComplete(t: seq<Tok>, p: nat, e: Expr)
    requires Terminated(t) && GoodExpr(e) && Stands(t, p, ExprTokens(e)) && p + |ExprTokens(e)| < |t|
    ensures ReadExpr(t, p) == Ok(ExprValue(e), p + |ExprTokens(e)|)
    decreases e, 1
  {
    match e
    case ArrayExpr(items, trailing) =>
      StandsHead(t, p, LBracket, ItemTokens(items, trailing));
      ItemsComplete(t, p + 1, items, trailing, []);
      assert [] + ItemValues(items) == ItemValues(items);
    case ObjectExpr(pairs) =>
      StandsHead(t, p, LBrace, PairsTokens(pairs));
      FieldsComplete(t, p + 1, pairs, map[]);
      assert map[] + PairValues(pairs) == PairValues(pairs);
    case _ =>
      StandsOne(t, p, ExprTokens(e)[0]);
  }

  lemma {:induction false} ItemsComplete(t: seq<Tok>, p: nat, items: seq<Expr>, trailing: bool, acc: seq<Value>)
    requires Terminated(t) && GoodItemsList(items) && (trailing ==> items != [])
    requires Stands(t, p, ItemTokens(items, trailing)) && p + |ItemTokens(items, trailing)| < |t|
    ensures ReadItems(t, p, acc) == Ok(Array(acc + ItemValues(items)), p + |ItemTokens(items, trailing)|)
    decreases items, 0
  {
    hide Stands, ExprTokens, ItemTokens, ExprValue, ItemValues, GoodExpr, ReadExpr;
    if items == [] {
      StandsOne(t, p, RBracket);
      ItemsNone(acc);
    } else {
      var e, rest := items[0], items[1..];
      assert items == [e] + rest;
      var q := p + |ExprTokens(e)|;
      if rest == [] && !trailing {
        assert items == [e];
        ItemsLast(e);
        StandsSplit(t, p, ExprTokens(e), [RBracket]);
        StandsOne(t, q, RBracket);
        ExprComplete(t, p, e);
        ExprHead(t, p, e);
      } else {
        var more := rest != [] && trailing;
        ItemsCons(e, rest, trailing, acc);
        StandsSplit(t, p, ExprTokens(e), [Comma] + ItemTokens(rest, more));
        StandsHead(t, q, Comma, ItemTokens(rest, more));
        ExprComplete(t, p, e);
        ExprHead(t, p, e);
        ItemsComplete(t, q + 1, rest, more, acc + [ExprValue(e)]);
      }
    }
  }

  /** No expression starts with a closing bracket. */
  lemma ExprHead(t: seq<Tok>, p: nat, e: Expr)
    requires Stands(t, p, ExprTokens(e))
    ensures p < |t| && !t[p].RBracket?
  {
    assert t[p] == ExprTokens(e)[0];
  }

  lemma {:induction false} PairComplete(t: seq<Tok>, p: nat, pair: Pair)
    requires Terminated(t) && GoodExpr(pair.value) && Stands(t, p, PairTokens(pair)) && p + |PairTokens(pair)| < |t|
    ensures p + 2 < |t| && IsKey(t[p]) && KeyOf(t[p]) == pair.key && t[p + 1].Equals?
    ensures ReadExpr(t, p + 2) == Ok(ExprValue(pair.value), p + |PairTokens(pair)|)
    decreases pair, 2
  {
    hide ExprTokens, ExprValue, GoodExpr, ReadExpr;
    var key := if pair.quoted then Text(pair.key) else Ident(pair.key);
    StandsSplit(t, p, [key, Equals], ExprTokens(pair.value));
    assert t[p..p + 2] == [t[p], t[p + 1]];
    ExprComplete(t, p + 2, pair.value);
  }

  lemma {:induction false} FieldsComplete(t: seq<Tok>, p: nat, pairs: seq<Pair>, acc: map<string, Value>)
    requires Terminated(t) && GoodPairs(pairs) && forall i :: 0 <= i < |pairs| ==> pairs[i].key !in acc
    requires Stands(t, p, PairsTokens(pairs)) && p + |PairsTokens(pairs)| < |t|
    ensures ReadFields(t, p, acc) == Ok(Object(acc + PairValues(pairs)), p + |PairsTokens(pairs)|)
    decreases pairs, 0
  {
    hide Stands, PairsTokens, PairTokens, ExprTokens, ExprValue, PairValues, GoodExpr, ReadExpr;
    if pairs == [] {
      StandsOne(t, p, RBrace);
      PairsNone(acc);
    } else {
      var pair, rest := pairs[0], pairs[1..];
      assert pairs == [pair] + rest;
      PairsCons(pair, rest, acc);
      StandsSplit(t, p, PairTokens(pair), PairsTokens(rest));
      PairComplete(t, p, pair);
      FieldsComplete(t, p + |PairTokens(pair)|, rest, acc[pair.key := ExprValue(pair.value)]);
    }
  }

  /** The labels read are the labels written when no further string follows. */
  lemma {:induction false} LabelsComplete(t: seq<Tok>, p: nat, labels: seq<string>)
    requires Terminated(t) && Stands(t, p, LabelTokens(labels)) && p + |labels| < |t| && !t[p + |labels|].Text?
    ensures LabelsEnd(t, p) == p + |labels| && Labels(t, p, p + |labels|) == labels
  {
    forall i | 0 <= i < |labels|
      ensures t[p + i] == Text(labels[i])
    {
      assert t[p + i] == t[p..p + |labels|][i];
    }
    var q := LabelsEnd(t, p);
    assert q <= p + |labels|;
  }

  lemma {:induction false} BlockComplete(t: seq<Tok>, p: nat, b: Tree)
    requires Terminated(t) && GoodTree(b) && Stands(t, p, TreeTokens(b)) && p + |TreeTokens(b)| < |t|
    requires b.Directive? ==> !t[p + |TreeTokens(b)|].Text? && !t[p + |TreeTokens(b)|].LBrace?
    ensures ReadBlock(t, p) == Ok(TreeBlock(b), p + |TreeTokens(b)|)
    ensures t[p].Ident? && !t[p + 1].Equals?
    decreases b, 1
  {
    var labels := b.labels;
    match b
    case Directive(_) =>
      StandsHead(t, p, Ident("import"), LabelTokens(labels));
      LabelsComplete(t, p + 1, labels);
      assert t[p + 1] == t[p + 1..p + 1 + |labels|][0];
    case Braced(name, _, items) =>
      BracedComplete(t, p, name, labels, items);
  }

  lemma {:induction false} BracedComplete(t: seq<Tok>, p: nat, name: string, labels: seq<string>, items: seq<Item>)
    requires var b := Braced(name, labels, items);
             Terminated(t) && GoodItems(items) && Stands(t, p, TreeTokens(b)) && p + |TreeTokens(b)| < |t|
    ensures var b := Braced(name, labels, items);
            ReadBlock(t, p) == Ok(TreeBlock(b), p + |TreeTokens(b)|) && t[p].Ident? && !t[p + 1].Equals?
    decreases items, 1
  {
    var q := p + 1 + |labels|;
    var block := Block(name, labels, map[], []);
    hide Stands, BodyTokens, BodyAttributes, BodyBlocks, GoodItems, ReadBody, LabelTokens, Labels, LabelsEnd,
      TreeTokens, TreeBlock, Extended;
    BracedStands(t, p, name, labels, items);
    BracedMeaning(name, labels, items);
    LabelsComplete(t, p + 1, labels);
    BodyComplete(t, q + 1, items, block);
    LabelsHead(t, p + 1);
  }

  /** A label or an opening brace is no equals sign. */
  lemma LabelsHead(t: seq<Tok>, p: nat)
    requires Terminated(t) && p < |t| && t[LabelsEnd(t, p)].LBrace?
    ensures !t[p].Equals?
  {
  }

  lemma {:induction false} BodyComplete(t: seq<Tok>, p: nat, items: seq<Item>, block: Block)
    requires Terminated(t) && GoodItems(items) && FreshKeys(items, block.attributes)
    requires Stands(t, p, BodyTokens(items)) && p + |BodyTokens(items)| < |t|
    ensures ReadBody(t, p, block) == Ok(Extended(block, items), p + |BodyTokens(items)|)
    decreases items, 0
  {
    hide Stands, BodyTokens, PairTokens, TreeTokens, ExprTokens, ExprValue, Extended, TreeBlock, GoodExpr, GoodTree,
      ReadExpr, ReadBlock;
    if items == [] {
      StandsOne(t, p, RBrace);
      BodyNone(block);
    } else {
      var first, rest := items[0], items[1..];
      assert items == [first] + rest;
      ConsExtends(block, first, rest);
      StandsSplit(t, p, EntryTokens(first), BodyTokens(rest));
      var q := p + |EntryTokens(first)|;
      TailGood(items);
      match first
      case Attribute(pair) =>
        PairComplete(t, p, pair);
        BodyComplete(t, q, rest, block.(attributes := block.attributes[pair.key := ExprValue(pair.value)]));
      case Child(child) =>
        if child.Directive? {
          AfterDirective(t, q, items);
        }
        ChildComplete(t, p, first);
        BodyComplete(t, q, rest, block.(blocks := block.blocks + [TreeBlock(child)]));
    }
  }

  lemma {:induction false} ChildComplete(t: seq<Tok>, p: nat, i: Item)
    requires Terminated(t) && i.Child? && GoodTree(i.block)
    requires Stands(t, p, TreeTokens(i.block)) && p + |TreeTokens(i.block)| < |t|
    requires i.block.Directive? ==> !t[p + |TreeTokens(i.block)|].Text? && !t[p + |TreeTokens(i.block)|].LBrace?
    ensures ReadBlock(t, p) == Ok(TreeBlock(i.block), p + |TreeTokens(i.block)|)
    ensures t[p].Ident? && !t[p + 1].Equals?
    decreases i, 2
  {
    BlockComplete(t, p, i.block);
  }

  lemma TailGood(items: seq<Item>)
    requires items != [] && GoodItems(items)
    ensures GoodItem(items[0]) && GoodItems(items[1..])
  {
    hide GoodItem;
    var rest := items[1..];
    forall i | 0 < i < |rest|
      ensures MayFollow(rest[i - 1], rest[i])
    {
      assert rest[i - 1] == items[i] && rest[i] == items[i + 1];
    }
  }

  /** What follows an import directive in a body neither is a string nor opens a brace. */
  lemma AfterDirective(t: seq<Tok>, q: nat, items: seq<Item>)
    requires items != [] && items[0].Child? && items[0].block.Directive? && GoodItems(items)
    requires Stands(t, q, BodyTokens(items[1..]))
    ensures q < |t| && !t[q].Text? && !t[q].LBrace?
  {
    var rest := items[1..];
    assert t[q] == BodyTokens(rest)[0];
    if rest != [] {
      assert MayFollow(items[0], items[1]);
      assert BodyTokens(rest)[0] == EntryTokens(rest[0])[0];
      EntryHead(rest[0]);
    }
  }

  lemma EntryHead(i: Item)
    ensures var k := EntryTokens(i)[0]; !k.LBrace? && (k.Text? ==> i.Attribute? && i.pair.quoted)
  {
    match i
    case Attribute(pair) => assert PairTokens(pair)[0] == if pair.quoted then Text(pair.key) else Ident(pair.key);
    case Child(block) => assert TreeTokens(block)[0].Ident?;
  }

  lemma {:induction false} FileComplete(t: seq<Tok>, p: nat, trees: seq<Tree>, acc: seq<Block>)
    requires Terminated(t) && p < |t| && GoodFile(trees) && t[p..] == FileTokens(trees)
    ensures ReadFile(t, p, acc) == Ok(acc + FileBlocks(trees), |t| - 1)
    decreases trees
  {
    hide TreeTokens, TreeBlock, GoodTree, ReadBlock, Stands;
    if trees == [] {
      assert |t[p..]| == 1 && t[p] == t[p..][0] == Eof;
      assert acc + FileBlocks(trees) == acc;
    } else {
      var b, rest := trees[0], trees[1..];
      var q := p + |TreeTokens(b)|;
      SplitTail(t, p, TreeTokens(b), FileTokens(rest));
      assert t[q] == FileTokens(rest)[0];
      FileHead(rest);
      BlockComplete(t, p, b);
      FileComplete(t, q, rest, acc + [TreeBlock(b)]);
      assert acc + [TreeBlock(b)] + FileBlocks(rest) == acc + FileBlocks(trees);
    }
  }

  lemma SplitTail(t: seq<Tok>, p: nat, a: seq<Tok>, b: seq<Tok>)
    requires p <= |t| && t[p..] == a + b
    ensures p + |a| <= |t| && Stands(t, p, a) && t[p + |a|..] == b
  {
    assert t[p..][..|a|] == a;
    assert t[p..][|a|..] == b;
  }

  lemma FileHead(trees: seq<Tree>)
    ensures var k := FileTokens(trees)[0]; !k.Text? && !k.LBrace?
  {
  }

  // ------------------------------------------------------------------
  // The end marker occurs at the end only
  // ------------------------------------------------------------------

  ghost predicate NoEof(s: seq<Tok>) {
    Eof !in s
  }

  lemma {:induction false} ExprNoEof(e: Expr)
    ensures NoEof(ExprTokens(e))
    decreases e, 1
  {
    match e
    case ArrayExpr(items, trailing) => ItemsNoEof(items, trailing);
    case ObjectExpr(pairs) => PairsNoEof(pairs);
    case _ =>
  }

  lemma {:induction false} ItemsNoEof(items: seq<Expr>, trailing: bool)
    ensures NoEof(ItemTokens(items, trailing))
    decreases items, 0
  {
    if items != [] {
      ExprNoEof(items[0]);
      if |items| > 1 {
        ItemsNoEof(items[1..], trailing);
      }
    }
  }

  lemma {:induction false} PairNoEof(p: Pair)
    ensures NoEof(PairTokens(p))
    decreases p, 2
  {
    ExprNoEof(p.value);
  }

  lemma {:induction false} PairsNoEof(pairs: seq<Pair>)
    ensures NoEof(PairsTokens(pairs))
    decreases pairs, 0
  {
    if pairs != [] {
      PairNoEof(pairs[0]);
      PairsNoEof(pairs[1..]);
    }
  }

  lemma {:induction false} TreeNoEof(b: Tree)
    ensures NoEof(TreeTokens(b))
    decreases b, 1
  {
    assert NoEof(LabelTokens(b.labels));
    if b.Braced? {
      BodyNoEof(b.items);
    }
  }

  lemma {:induction false} EntryNoEof(i: Item)
    ensures NoEof(EntryTokens(i))
    decreases i, 2
  {
    match i
    case Attribute(pair) => PairNoEof(pair);
    case Child(block) => TreeNoEof(block);
  }

  lemma {:induction false} BodyNoEof(items: seq<Item>)
    ensures NoEof(BodyTokens(items))
    decreases items, 0
  {
    hide EntryTokens;
    if items != [] {
      EntryNoEof(items[0]);
      BodyNoEof(items[1..]);
    }
  }

  lemma {:induction false} FileTerminated(trees: seq<Tree>)
    ensures Terminated(FileTokens(trees))
  {
    hide TreeTokens;
    if trees != [] {
      var a, b := TreeTokens(trees[0]), FileTokens(trees[1..]);
      TreeNoEof(trees[0]);
      FileTerminated(trees[1..]);
      forall i | 0 <= i < |a + b| - 1
        ensures (a + b)[i] != Eof
      {
        if i < |a| {
          assert a[i] in a;
        }
      }
    }
  }

  // ------------------------------------------------------------------
  // Main results
  // ------------------------------------------------------------------

  /** The tokens of every good derivation parse to what it denotes, up to the
      end marker. */
  lemma DerivedIsParsed(trees: seq<Tree>)
    requires GoodFile(trees)
    ensures Terminated(FileTokens(trees))
    ensures ReadFile(FileTokens(trees), 0, []) == Ok(FileBlocks(trees), |FileTokens(trees)| - 1)
  {
    var t := FileTokens(trees);
    FileTerminated(trees);
    assert t[0..] == t;
    FileComplete(t, 0, trees, []);
    assert [] + FileBlocks(trees) == FileBlocks(trees);
  }

  /** The parser accepts exactly the derivable token lists. */
  lemma AcceptsTheGrammar(t: seq<Tok>)
    requires Terminated(t)
    ensures ReadFile(t, 0, []).Ok? <==> exists trees :: GoodFile(trees) && FileTokens(trees) == t
    ensures forall trees :: GoodFile(trees) && FileTokens(trees) == t
                            ==> ReadFile(t, 0, []) == Ok(FileBlocks(trees), |t| - 1)
  {
    hide ReadFile, FileTokens, FileBlocks, GoodFile;
    if ReadFile(t, 0, []).Ok? {
      var trees := FileSound(t, 0, []);
      assert t[0..] == t;
      assert FileTokens(trees) == t;
    }
    forall trees | GoodFile(trees) && FileTokens(trees) == t
      ensures ReadFile(t, 0, []) == Ok(FileBlocks(trees), |t| - 1)
    {
      DerivedIsParsed(trees);
    }
  }

  /** Two good derivations of one token list denote the same blocks. */
  lemma Unambiguous(a: seq<Tree>, b: seq<Tree>)
    requires GoodFile(a) && GoodFile(b) && FileTokens(a) == FileTokens(b)
    ensures FileBlocks(a) == FileBlocks(b)
  {
    DerivedIsParsed(a);
    DerivedIsParsed(b);
  }

  /** The map of an object holds exactly its pairs, in whatever order. */
  lemma {:induction false} PairsMeaning(pairs: seq<Pair>)
    requires DistinctKeys(pairs)
    ensures forall i :: 0 <= i < |pairs| ==>
              pairs[i].key in PairValues(pairs) && PairValues(pairs)[pairs[i].key] == ExprValue(pairs[i].value)
    ensures forall k :: k in PairValues(pairs) ==> exists i :: 0 <= i < |pairs| && pairs[i].key == k
  {
    if pairs != [] {
      var rest := pairs[1..];
      PairsMeaning(rest);
      forall k | k in PairValues(pairs)
        ensures exists i :: 0 <= i < |pairs| && pairs[i].key == k
      {
        if k == pairs[0].key {
        } else {
          var i :| 0 <= i < |rest| && rest[i].key == k;
          assert pairs[i + 1].key == k;
        }
      }
      forall i | 0 <= i < |pairs|
        ensures pairs[i].key in PairValues(pairs) && PairValues(pairs)[pairs[i].key] == ExprValue(pairs[i].value)
      {
        if i > 0 {
          assert pairs[i] == rest[i - 1];
        } else {
          assert pairs[0].key !in PairValues(rest);
        }
      }
    }
  }

  // ------------------------------------------------------------------
  // Every tree has a rendering
  // ------------------------------------------------------------------

  /** Raw bytes are the only values the language cannot write. */
  ghost predicate Producible(v: Value)
    decreases v
  {
    match v
    case Raw(_) => false
    case Array(items) => forall i :: 0 <= i < |items| ==> Producible(items[i])
    case Object(fields) => forall k :: k in fields ==> Producible(fields[k])
    case _ => true
  }

  ghost predicate ProducibleBlock(b: Block)
    decreases b
  {
    && (forall k :: k in b.attributes ==> Producible(b.attributes[k]))
    && (forall i :: 0 <= i < |b.blocks| ==> ProducibleBlock(b.blocks[i]))
  }

  // ------------------------------------------------------------------
  // Tokens the lexer can deliver
  // ------------------------------------------------------------------

  predicate IsLetter(c: char) {
    'a' <= c <= 'z' || 'A' <= c <= 'Z' || c == '_'
  }

  /** An identifier as the lexer reads it; the two truth values are no identifiers. */
  predicate LexableName(s: string) {
    && s != "" && IsLetter(s[0]) && s != "true" && s != "false"
    && forall i :: 0 <= i < |s| ==> IsLetter(s[i]) || '0' <= s[i] <= '9' || s[i] == '-'
  }

  ghost predicate LexableTokens(t: seq<Tok>) {
    forall k :: k in t && k.Ident? ==> LexableName(k.name)
  }

  /** All keys are quoted, so that any text may be one. */
  ghost predicate Quoted(e: Expr)
    decreases e, 1
  {
    match e
    case ArrayExpr(items, _) => forall i :: 0 <= i < |items| ==> Quoted(items[i])
    case ObjectExpr(pairs) => QuotedPairs(pairs)
    case _ => true
  }

  ghost predicate QuotedPairs(pairs: seq<Pair>)
    decreases pairs, 0
  {
    forall i :: 0 <= i < |pairs| ==> QuotedPair(pairs[i])
  }

  ghost predicate QuotedPair(p: Pair)
    decreases p, 2
  {
    p.quoted && Quoted(p.value)
  }

  ghost predicate LexableTree(b: Tree)
    decreases b, 1
  {
    b.Braced? ==> LexableName(b.name) && LexableItems(b.items)
  }

  ghost predicate LexableItems(items: seq<Item>)
    decreases items, 0
  {
    forall i :: 0 <= i < |items| ==> LexableItem(items[i])
  }

  ghost predicate LexableItem(i: Item)
    decreases i, 2
  {
    match i
    case Attribute(pair) => QuotedPair(pair)
    case Child(block) => LexableTree(block)
  }

  ghost predicate LexableBlock(b: Block)
    decreases b
  {
    LexableName(b.name) && forall i :: 0 <= i < |b.blocks| ==> LexableBlock(b.blocks[i])
  }

  lemma LexableConcat(a: seq<Tok>, b: seq<Tok>)
    requires LexableTokens(a) && LexableTokens(b)
    ensures LexableTokens(a + b)
  {
    hide LexableName;
  }

  lemma {:induction false} QuotedIsLexable(e: Expr)
    requires Quoted(e)
    ensures LexableTokens(ExprTokens(e))
    decreases e, 1
  {
    match e
    case ArrayExpr(items, trailing) =>
      QuotedItemsAreLexable(items, trailing);
      LexableConcat([LBracket], ItemTokens(items, trailing));
    case ObjectExpr(pairs) =>
      QuotedPairsAreLexable(pairs);
      LexableConcat([LBrace], PairsTokens(pairs));
    case _ =>
  }

  lemma {:induction false} QuotedItemsAreLexable(items: seq<Expr>, trailing: bool)
    requires forall i :: 0 <= i < |items| ==> Quoted(items[i])
    ensures LexableTokens(ItemTokens(items, trailing))
    decreases items, 0
  {
    hide LexableName;
    if items != [] {
      QuotedIsLexable(items[0]);
      if |items| > 1 {
        QuotedItemsAreLexable(items[1..], trailing);
        LexableConcat([Comma], ItemTokens(items[1..], trailing));
        LexableConcat(ExprTokens(items[0]), [Comma] + ItemTokens(items[1..], trailing));
      } else {
        LexableConcat(ExprTokens(items[0]), if trailing then [Comma, RBracket] else [RBracket]);
      }
    }
  }

  lemma {:induction false} QuotedPairIsLexable(p: Pair)
    requires QuotedPair(p)
    ensures LexableTokens(PairTokens(p))
    decreases p, 2
  {
    QuotedIsLexable(p.value);
    LexableConcat([Text(p.key), Equals], ExprTokens(p.value));
  }

  lemma {:induction false} QuotedPairsAreLexable(pairs: seq<Pair>)
    requires QuotedPairs(pairs)
    ensures LexableTokens(PairsTokens(pairs))
    decreases pairs, 0
  {
    hide LexableName;
    if pairs != [] {
      QuotedPairIsLexable(pairs[0]);
      QuotedPairsAreLexable(pairs[1..]);
      LexableConcat(PairTokens(pairs[0]), PairsTokens(pairs[1..]));
    }
  }

  lemma {:induction false} TreeIsLexable(b: Tree)
    requires LexableTree(b)
    ensures LexableTokens(TreeTokens(b))
    decreases b, 1
  {
    assert LexableTokens(LabelTokens(b.labels));
    match b
    case Directive(labels) =>
      LexableConcat([Ident("import")], LabelTokens(labels));
    case Braced(name, labels, items) =>
      BodyIsLexable(items);
      LexableConcat([LBrace], BodyTokens(items));
      LexableConcat(LabelTokens(labels), [LBrace] + BodyTokens(items));
      LexableConcat([Ident(name)], LabelTokens(labels) + ([LBrace] + BodyTokens(items)));
  }

  lemma {:induction false} EntryIsLexable(i: Item)
    requires LexableItem(i)
    ensures LexableTokens(EntryTokens(i))
    decreases i, 2
  {
    match i
    case Attribute(pair) => QuotedPairIsLexable(pair);
    case Child(block) => TreeIsLexable(block);
  }

  lemma {:induction false} BodyIsLexable(items: seq<Item>)
    requires LexableItems(items)
    ensures LexableTokens(BodyTokens(items))
    decreases items, 0
  {
    hide EntryTokens, LexableName;
    if items != [] {
      EntryIsLexable(items[0]);
      BodyIsLexable(items[1..]);
      LexableConcat(EntryTokens(items[0]), BodyTokens(items[1..]));
    }
  }

  // ------------------------------------------------------------------
  // The rendering
  // ------------------------------------------------------------------

  lemma {:induction false} RenderValue(v: Value) returns (e: Expr)
    requires Producible(v)
    ensures GoodExpr(e) && ExprValue(e) == v && Quoted(e)
    decreases v, 1
  {
    match v
    case Null => e := NullExpr;
    case Bool(b) => e := BoolExpr(b);
    case Number(n) => e := NumExpr(n);
    case Str(s) => e := StrExpr(s);
    case Array(items) =>
      var es := RenderItems(items);
      e := ArrayExpr(es, false);
    case Object(fields) =>
      var pairs := RenderFields(v, fields.Keys);
      e := ObjectExpr(pairs);
      assert PairValues(pairs) == fields;
  }

  lemma {:induction false} RenderItems(items: seq<Value>) returns (es: seq<Expr>)
    requires forall i :: 0 <= i < |items| ==> Producible(items[i])
    ensures GoodItemsList(es) && ItemValues(es) == items && forall i :: 0 <= i < |es| ==> Quoted(es[i])
    decreases items, 0
  {
    if items == [] {
      es := [];
    } else {
      var e := RenderValue(items[0]);
      var rest := RenderItems(items[1..]);
      es := [e] + rest;
      assert es[1..] == rest;
    }
  }

  /** One pair for each key in `keys`. */
  lemma {:induction false} RenderFields(v: Value, keys: set<string>) returns (pairs: seq<Pair>)
    requires v.Object? && Producible(v) && keys <= v.fields.Keys
    ensures GoodPairs(pairs) && KeysWithin(pairs, keys) && PairValues(pairs) == Restricted(v.fields, keys)
    ensures QuotedPairs(pairs)
    decreases v, 0, |keys|
  {
    if keys == {} {
      pairs := [];
    } else {
      var k :| k in keys;
      assert Producible(v.fields[k]);
      hide Producible, GoodExpr, ExprValue, PairValues, GoodPairs, KeysWithin, Restricted, Quoted;
      var e := RenderValue(v.fields[k]);
      var rest := RenderFields(v, keys - {k});
      var pair := Pair(true, k, e);
      pairs := [pair] + rest;
      PairsConsGood(pair, rest, keys);
      PairsCons(pair, rest, map[]);
      RestrictedStep(v.fields, keys, k);
      MapUnit(PairValues(pairs));
    }
  }

  lemma MapUnit(m: map<string, Value>)
    ensures map[] + m == m
  {
  }

  ghost function Restricted(m: map<string, Value>, keys: set<string>): map<string, Value> {
    map k | k in m && k in keys :: m[k]
  }

  lemma RestrictedStep(m: map<string, Value>, keys: set<string>, k: string)
    requires k in keys && k in m
    ensures map[][k := m[k]] + Restricted(m, keys - {k}) == Restricted(m, keys)
  {
  }

  ghost predicate KeysWithin(pairs: seq<Pair>, keys: set<string>) {
    forall i :: 0 <= i < |pairs| ==> pairs[i].key in keys
  }

  lemma PairsConsGood(pair: Pair, rest: seq<Pair>, keys: set<string>)
    requires pair.key in keys && GoodExpr(pair.value) && GoodPairs(rest) && KeysWithin(rest, keys - {pair.key})
    ensures GoodPairs([pair] + rest) && KeysWithin([pair] + rest, keys)
  {
    hide GoodExpr;
  }

  /** Attributes first, then the children, all with braces. */
  lemma {:induction false} RenderBlock(b: Block) returns (tree: Tree)
    requires ProducibleBlock(b)
    ensures GoodTree(tree) && TreeBlock(tree) == b && tree.Braced? && (LexableBlock(b) ==> LexableTree(tree))
    decreases b, 1
  {
    var children := RenderChildren(b.blocks);
    var pairs := RenderFields(Object(b.attributes), b.attributes.Keys);
    assert PairValues(pairs) == b.attributes;
    hide GoodTree, TreeBlock, Restricted, LexableName, LexableItems, QuotedPairs;
    var items := WithAttributes(pairs, children, map[]);
    tree := Braced(b.name, b.labels, items);
    BracedMeaning(b.name, b.labels, items);
  }

  ghost predicate ChildrenOnly(items: seq<Item>) {
    forall i :: 0 <= i < |items| ==> items[i].Child? && items[i].block.Braced?
  }

  lemma {:induction false} RenderChildren(blocks: seq<Block>) returns (items: seq<Item>)
    requires forall i :: 0 <= i < |blocks| ==> ProducibleBlock(blocks[i])
    ensures GoodItems(items) && ChildrenOnly(items)
    ensures BodyBlocks(items) == blocks && BodyAttributes(items) == map[]
    ensures (forall i :: 0 <= i < |blocks| ==> LexableBlock(blocks[i])) ==> LexableItems(items)
    decreases blocks, 0
  {
    if blocks == [] {
      items := [];
    } else {
      var first := RenderBlock(blocks[0]);
      var rest := RenderChildren(blocks[1..]);
      hide ProducibleBlock, TreeBlock, GoodTree, GoodItems, LexableTree, LexableBlock;
      items := [Child(first)] + rest;
      assert items[1..] == rest;
      ConsGood(Child(first), rest, map[]);
    }
  }

  lemma {:induction false} WithAttributes(pairs: seq<Pair>, children: seq<Item>, taken: map<string, Value>)
    returns (items: seq<Item>)
    requires GoodPairs(pairs) && (forall i :: 0 <= i < |pairs| ==> pairs[i].key !in taken)
    requires GoodItems(children) && ChildrenOnly(children) && QuotedPairs(pairs)
    ensures LexableItems(children) ==> LexableItems(items)
    ensures GoodItems(items) && FreshKeys(items, taken) && BodyBlocks(items) == BodyBlocks(children)
    ensures BodyAttributes(items) == PairValues(pairs) + BodyAttributes(children)
    decreases |pairs|
  {
    if pairs == [] {
      items := children;
      MapUnit(BodyAttributes(children));
    } else {
      var first := Attribute(pairs[0]);
      assert GoodItem(first);
      hide GoodItems, GoodItem, GoodExpr, ExprValue, TreeBlock, BodyBlocks, BodyAttributes, PairValues, QuotedPair, LexableTree;
      var rest := WithAttributes(pairs[1..], children, taken[pairs[0].key := Null]);
      items := [first] + rest;
      assert pairs == [pairs[0]] + pairs[1..];
      ConsGood(first, rest, taken);
      AttributeStep(pairs[0], pairs[1..], rest, children);
    }
  }

  lemma AttributeStep(pair: Pair, others: seq<Pair>, rest: seq<Item>, children: seq<Item>)
    requires BodyBlocks(rest) == BodyBlocks(children)
    requires BodyAttributes(rest) == PairValues(others) + BodyAttributes(children)
    ensures BodyBlocks([Attribute(pair)] + rest) == BodyBlocks(children)
    ensures BodyAttributes([Attribute(pair)] + rest) == PairValues([pair] + others) + BodyAttributes(children)
  {
    hide ExprValue, TreeBlock;
    assert ([Attribute(pair)] + rest)[1..] == rest;
    assert ([pair] + others)[1..] == others;
  }

  /** Every tree the language can express is what the parser returns for some
      token list: its attributes with quoted keys in any order, then its children.
      If the block names are identifiers the lexer can deliver that list. */
  lemma {:induction false} RenderFile(blocks: seq<Block>) returns (trees: seq<Tree>)
    requires forall i :: 0 <= i < |blocks| ==> ProducibleBlock(blocks[i])
    ensures GoodFile(trees) && FileBlocks(trees) == blocks
    ensures Terminated(FileTokens(trees))
    ensures ReadFile(FileTokens(trees), 0, []) == Ok(blocks, |FileTokens(trees)| - 1)
    ensures (forall i :: 0 <= i < |blocks| ==> LexableBlock(blocks[i])) ==> LexableTokens(FileTokens(trees))
  {
    hide ProducibleBlock, TreeBlock, GoodTree, TreeTokens, ReadFile, LexableTree, LexableBlock, LexableName;
    if blocks == [] {
      trees := [];
    } else {
      var first := RenderBlock(blocks[0]);
      var rest := RenderFile(blocks[1..]);
      trees := [first] + rest;
      assert trees[1..] == rest;
      if forall i :: 0 <= i < |blocks| ==> LexableBlock(blocks[i]) {
        TreeIsLexable(first);
        LexableConcat(TreeTokens(first), FileTokens(rest));
      }
    }
    DerivedIsParsed(trees);
  }
}
