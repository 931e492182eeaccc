/** Values and blocks of the protocol language. */
module Syntax {
  import opened Bytes

  /** Numbers are integers here. */
  datatype Value =
    | Null
    | Bool(b: bool)
    | Number(n: int)
    | Str(s: string)
    | Raw(bytes: seq<Byte>)
    | Array(items: seq<Value>)
    | Object(fields: map<string, Value>)

  datatype Block = Block(name: string, labels: seq<string>, attributes: map<string, Value>, blocks: seq<Block>)

  datatype Tok =
    | Ident(name: string)
    | Text(text: string)
    | Num(n: int)
    | Boolean(b: bool)
    | LBrace | RBrace | LBracket | RBracket | Equals | Comma | Eof
}
