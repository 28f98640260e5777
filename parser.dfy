/** The statement parser: a token sequence becomes one of six commands, or
    None when it is empty or its first word is not a command keyword.
    Malformed statements raise, as the index and split operations of the
    parser do. */
module Parser {
  import opened Outcomes
  import opened Text

  /** A `column=value` pair, used for filters and for UPDATE's assignment. */
  datatype ColumnValue = ColumnValue(column: string, value: string)

  datatype Command =
    | Create(table: string, columns: seq<string>)
    | Drop(table: string)
    | Insert(table: string, values: seq<string>)
    | Select(table: string, filter: Option<ColumnValue>)
    | Delete(table: string, condition: ColumnValue)
    | Update(table: string, assignment: ColumnValue, condition: ColumnValue)
  {
    /** The keyword of the statement that parses to this command. */
    function Keyword(): string {
      match this
      case Create(_, _) => "MAKE"
      case Drop(_) => "REMOVE"
      case Insert(_, _) => "ADD"
      case Select(_, _) => "SHOW"
      case Delete(_, _) => "ERASE"
      case Update(_, _, _) => "CHANGE"
    }
  }

  predicate IsKeyword(word: string) {
    word in {"MAKE", "REMOVE", "ADD", "SHOW", "ERASE", "CHANGE"}
  }

  /** tokens[i]; IndexError past the end. */
  function TokenAt(tokens: seq<string>, i: nat): (r: Outcome<string>)
    ensures r.Ok? <==> i < |tokens|
    ensures r.Ok? ==> r.value == tokens[i]
    ensures r.Raise? ==> r.fault == IndexError
  {
    if i < |tokens| then Ok(tokens[i]) else Raise(IndexError)
  }

  /** tokens[3:-1]: what lies strictly between the third token (the opening
      bracket) and the last token (the closing one). */
  function Bracketed(tokens: seq<string>): seq<string> {
    if |tokens| >= 4 then tokens[3..|tokens| - 1] else []
  }

  /** The pieces of " ".join(tokens[3:-1]).split(","). */
  function CommaPieces(tokens: seq<string>): seq<string> {
    Split(Join(Bracketed(tokens), " "), ',')
  }

  function StripAll(pieces: seq<string>): (r: seq<string>)
    ensures |r| == |pieces|
    ensures forall k :: 0 <= k < |r| ==> r[k] == Strip(pieces[k])
  {
    seq(|pieces|, k requires 0 <= k < |pieces| => Strip(pieces[k]))
  }

  /** The MAKE column list and the ADD value list: the pieces, each
      stripped. There is one item more than there are commas, no item
      holds a comma, and none starts or ends with whitespace. */
  function CommaList(tokens: seq<string>): (r: seq<string>)
    ensures |r| == Count(Join(Bracketed(tokens), " "), ',') + 1
    ensures forall k :: 0 <= k < |r| ==> ',' !in r[k] && Trimmed(r[k])
  {
    var pieces := CommaPieces(tokens);
    SplitPiecesLackSep(Join(Bracketed(tokens), " "), ',');
    var r := StripAll(pieces);
    assert forall k :: 0 <= k < |r| ==> ',' !in r[k] by {
      forall k | 0 <= k < |r| ensures ',' !in r[k] {
        var p := pieces[k];
        assert r[k] == p[Lead(p)..Lead(p) + |r[k]|];
      }
    }
    r
  }

  /** `column, value = text.split("=")`: ValueError unless the text holds
      exactly one '='. */
  function SplitPair(text: string): (r: Outcome<ColumnValue>)
    ensures r.Ok? <==> Count(text, '=') == 1
    ensures r.Raise? ==> r.fault == ValueError
    ensures r.Ok? ==> r.value.column + "=" + r.value.value == text
    ensures r.Ok? ==> '=' !in r.value.column && '=' !in r.value.value
  {
    match SplitTwo(text, '=')
    case Some((column, value)) => Ok(ColumnValue(column, value))
    case None => Raise(ValueError)
  }

  /** tokens.index(keyword): ValueError when the keyword is absent. */
  function PositionOf(tokens: seq<string>, keyword: string): (r: Outcome<nat>)
    ensures r.Ok? <==> keyword in tokens
    ensures r.Ok? ==> r.value < |tokens| && tokens[r.value] == keyword && keyword !in tokens[..r.value]
    ensures r.Raise? ==> r.fault == ValueError
  {
    match IndexOf(tokens, keyword)
    case Some(i) => Ok(i)
    case None => Raise(ValueError)
  }

  /** The pair in the token right after the first occurrence of keyword:
      `tokens[tokens.index(keyword) + 1].split("=")`. */
  function PairAfter(tokens: seq<string>, keyword: string): Outcome<ColumnValue> {
    var i :- PositionOf(tokens, keyword);
    var text :- TokenAt(tokens, i + 1);
    SplitPair(text)
  }

  /** MAKE <table> ( <spec>, ... ) */
  function ParseMake(tokens: seq<string>): Outcome<Command> {
    var table :- TokenAt(tokens, 1);
    Ok(Create(table, CommaList(tokens)))
  }

  /** REMOVE <table> */
  function ParseRemove(tokens: seq<string>): Outcome<Command> {
    var table :- TokenAt(tokens, 1);
    Ok(Drop(table))
  }

  /** ADD <table> ( <value>, ... ) */
  function ParseAdd(tokens: seq<string>): Outcome<Command> {
    var table :- TokenAt(tokens, 1);
    Ok(Insert(table, CommaList(tokens)))
  }

  /** SHOW <table> [WHERE <column>=<value>] */
  function ParseShow(tokens: seq<string>): Outcome<Command> {
    var table :- TokenAt(tokens, 1);
    if "WHERE" in tokens then
      var condition :- PairAfter(tokens, "WHERE");
      Ok(Select(table, Some(condition)))
    else
      Ok(Select(table, None))
  }

  /** ERASE <table> WHERE <column>=<value> */
  function ParseErase(tokens: seq<string>): Outcome<Command> {
    var table :- TokenAt(tokens, 1);
    var condition :- PairAfter(tokens, "WHERE");
    Ok(Delete(table, condition))
  }

  /** CHANGE <table> SET <column>=<value> WHERE <column>=<value>, with the
      lookups in the order the source performs them. */
  function ParseChange(tokens: seq<string>): Outcome<Command> {
    var table :- TokenAt(tokens, 1);
    var setIndex :- PositionOf(tokens, "SET");
    var whereIndex :- PositionOf(tokens, "WHERE");
    var setPart :- TokenAt(tokens, setIndex + 1);
    var wherePart :- TokenAt(tokens, whereIndex + 1);
    var assignment :- SplitPair(setPart);
    var condition :- SplitPair(wherePart);
    Ok(Update(table, assignment, condition))
  }

  /** The parser of the statement whose keyword is `command`. */
  function ParseAs(command: string, tokens: seq<string>): Outcome<Command>
    requires IsKeyword(command)
  {
    if command == "MAKE" then ParseMake(tokens)
    else if command == "REMOVE" then ParseRemove(tokens)
    else if command == "ADD" then ParseAdd(tokens)
    else if command == "SHOW" then ParseShow(tokens)
    else if command == "ERASE" then ParseErase(tokens)
    else ParseChange(tokens)
  }

  /** parse_query. Every command it returns names tokens[1] as its table and
      answers to the first token's keyword, read in any case; an empty
      token sequence and an unknown first word both give None. */
  function ParseQuery(tokens: seq<string>): (r: Outcome<Option<Command>>)
    ensures tokens == [] ==> r == Ok(None)
    ensures tokens != [] && !IsKeyword(Upper(tokens[0])) ==> r == Ok(None)
    ensures r.Ok? && r.value.Some? ==>
              |tokens| >= 2 && r.value.value.table == tokens[1] &&
              Upper(tokens[0]) == r.value.value.Keyword()
    ensures tokens != [] && IsKeyword(Upper(tokens[0])) ==> (r.Ok? ==> r.value.Some?)
    ensures tokens != [] && IsKeyword(Upper(tokens[0])) && |tokens| < 2 ==> r == Raise(IndexError)
  {
    if tokens == [] then Ok(None)
    else
      var command := Upper(tokens[0]);
      if IsKeyword(command) then
        var c :- ParseAs(command, tokens);
        Ok(Some(c))
      else
        Ok(None)
  }

  // ---------------------------------------------------------------------
  // Properties of the parser

  lemma ParseDispatch(tokens: seq<string>)
    requires tokens != [] && IsKeyword(Upper(tokens[0]))
    ensures ParseQuery(tokens) ==
              match ParseAs(Upper(tokens[0]), tokens)
              case Ok(c) => Ok(Some(c))
              case Raise(f) => Raise(f)
  {
  }

  /** MAKE and ADD take their list from CommaList, whatever the bracket
      tokens are. */
  lemma ParseLists(tokens: seq<string>)
    requires |tokens| >= 2
    ensures Upper(tokens[0]) == "MAKE" ==> ParseQuery(tokens) == Ok(Some(Create(tokens[1], CommaList(tokens))))
    ensures Upper(tokens[0]) == "ADD" ==> ParseQuery(tokens) == Ok(Some(Insert(tokens[1], CommaList(tokens))))
  {
  }

  /** REMOVE names the table in its second token and nothing else. */
  lemma RemoveNamesTable(tokens: seq<string>)
    requires |tokens| >= 2 && Upper(tokens[0]) == "REMOVE"
    ensures ParseQuery(tokens) == Ok(Some(Drop(tokens[1])))
  {
  }

  /** SHOW has a condition exactly when the token "WHERE" (in capitals)
      occurs; the condition is the next token split at its only '='. */
  lemma ShowFilterIffWhere(tokens: seq<string>)
    requires |tokens| >= 2
    ensures "WHERE" !in tokens ==> ParseShow(tokens) == Ok(Select(tokens[1], None))
    ensures "WHERE" in tokens ==>
              var i := IndexOf(tokens, "WHERE").value;
              ParseShow(tokens) ==
                if i + 1 < |tokens| then
                  match SplitPair(tokens[i + 1])
                  case Ok(c) => Ok(Select(tokens[1], Some(c)))
                  case Raise(f) => Raise(f)
                else Raise(IndexError)
    ensures ParseShow(tokens).Ok? ==> (ParseShow(tokens).value.filter.Some? <==> "WHERE" in tokens)
  {
  }

  /** ERASE always carries a condition; without "WHERE" the lookup of its
      position raises ValueError, and otherwise the condition is the token
      after the first "WHERE" split at its only '='. */
  lemma EraseNeedsWhere(tokens: seq<string>)
    requires |tokens| >= 2
    ensures "WHERE" !in tokens ==> ParseErase(tokens) == Raise(ValueError)
    ensures "WHERE" in tokens ==>
              var i := IndexOf(tokens, "WHERE").value;
              ParseErase(tokens) ==
                if i + 1 < |tokens| then
                  match SplitPair(tokens[i + 1])
                  case Ok(c) => Ok(Delete(tokens[1], c))
                  case Raise(f) => Raise(f)
                else Raise(IndexError)
  {
  }

  /** CHANGE needs both "SET" and "WHERE"; with both present it parses
      exactly when the tokens after the first "SET" and the first "WHERE"
      exist and each holds one '=', giving the assignment and the
      condition. */
  lemma ChangeNeedsSetAndWhere(tokens: seq<string>)
    requires |tokens| >= 2
    ensures "SET" !in tokens || "WHERE" !in tokens ==> ParseChange(tokens) == Raise(ValueError)
    ensures ParseChange(tokens).Ok? ==>
              var s := IndexOf(tokens, "SET").value;
              var w := IndexOf(tokens, "WHERE").value;
              s + 1 < |tokens| && w + 1 < |tokens| &&
              SplitPair(tokens[s + 1]) == Ok(ParseChange(tokens).value.assignment) &&
              SplitPair(tokens[w + 1]) == Ok(ParseChange(tokens).value.condition)
    ensures "SET" in tokens && "WHERE" in tokens ==>
              var s := IndexOf(tokens, "SET").value;
              var w := IndexOf(tokens, "WHERE").value;
              ParseChange(tokens) ==
                if s + 1 >= |tokens| || w + 1 >= |tokens| then Raise(IndexError)
                else
                  match SplitPair(tokens[s + 1])
                  case Raise(f) => Raise(f)
                  case Ok(a) =>
                    match SplitPair(tokens[w + 1])
                    case Raise(f) => Raise(f)
                    case Ok(c) => Ok(Update(tokens[1], a, c))
  {
  }

  /** The tokens a bracketed list `( v0, v1, ..., vn )` becomes: a comma
      after every item but the last. */
  function ListTokens(items: seq<string>): seq<string> {
    if |items| <= 1 then items else [items[0] + ","] + ListTokens(items[1..])
  }

  predicate PlainItem(item: string) {
    forall k :: 0 <= k < |item| ==> item[k] != ',' && !IsSpace(item[k])
  }

  lemma {:induction false} JoinListTokens(items: seq<string>)
    requires |items| >= 1
    ensures Join(ListTokens(items), " ") == Join(items, ", ")
  {
    if |items| > 1 {
      JoinListTokens(items[1..]);
      var rest := ListTokens(items[1..]);
      assert |rest| >= 1;
      assert ([items[0] + ","] + rest)[1..] == rest;
    }
  }

  /** Whitespace followed by a plain item holds no comma. */
  lemma {:induction false} NoCommaBeforeItem(pre: string, w: string)
    requires forall k :: 0 <= k < |pre| ==> IsSpace(pre[k])
    requires PlainItem(w)
    ensures ',' !in pre + w
  {
    forall k | 0 <= k < |pre + w| ensures (pre + w)[k] != ',' {
      if k >= |pre| {
        assert (pre + w)[k] == w[k - |pre|];
      } else {
        assert (pre + w)[k] == pre[k];
      }
    }
  }

  /** Splitting on the first comma of a joined list. */
  lemma {:induction false} SplitFirstItem(pre: string, items: seq<string>)
    requires |items| >= 2
    requires forall k :: 0 <= k < |pre| ==> IsSpace(pre[k])
    requires PlainItem(items[0])
    ensures Split(pre + Join(items, ", "), ',') == [pre + items[0]] + Split(" " + Join(items[1..], ", "), ',')
  {
    var w := items[0];
    var tail := Join(items[1..], ", ");
    assert Join(items, ", ") == w + ", " + tail;
    assert ", " + tail == [','] + (" " + tail);
    assert pre + Join(items, ", ") == (pre + w) + [','] + (" " + tail);
    NoCommaBeforeItem(pre, w);
    SplitAtFirstSep(pre + w, ',', " " + tail);
  }

  lemma {:induction false} StripSplitItems(pre: string, items: seq<string>)
    requires |items| >= 1
    requires forall k :: 0 <= k < |pre| ==> IsSpace(pre[k])
    requires forall k :: 0 <= k < |items| ==> PlainItem(items[k])
    ensures StripAll(Split(pre + Join(items, ", "), ',')) == items
    decreases |items|
  {
    var w := items[0];
    assert PlainItem(w);
    assert Trimmed(w);
    StripSpacesThenWord(pre, w);
    if |items| == 1 {
      assert Join(items, ", ") == w;
      NoCommaBeforeItem(pre, w);
      SplitWithoutSep(pre + w, ',');
      assert StripAll([pre + w]) == [w];
    } else {
      var rest := Split(" " + Join(items[1..], ", "), ',');
      SplitFirstItem(pre, items);
      assert forall k :: 0 <= k < |items[1..]| ==> PlainItem(items[1..][k]);
      StripSplitItems(" ", items[1..]);
      assert StripAll([pre + w] + rest) == [w] + StripAll(rest);
      assert [w] + items[1..] == items;
    }
  }

  lemma UpperOfKeyword(keyword: string)
    requires IsKeyword(keyword)
    ensures Upper(keyword) == keyword
  {
    assert forall i :: 0 <= i < |keyword| ==> 'A' <= keyword[i] <= 'Z';
    UpperMatchesKeyword(keyword, keyword);
  }

  lemma CommaListOfItems(tokens: seq<string>, items: seq<string>)
    requires |items| >= 1
    requires forall k :: 0 <= k < |items| ==> PlainItem(items[k])
    requires Bracketed(tokens) == ListTokens(items)
    ensures CommaList(tokens) == items
  {
    JoinListTokens(items);
    StripSplitItems("", items);
    assert "" + Join(items, ", ") == Join(items, ", ");
    assert CommaList(tokens) == StripAll(CommaPieces(tokens));
  }

  /** The bracketed list round trip: an ADD statement whose values are
      written `( v0, v1, ..., vn )` parses to an INSERT of exactly those
      values, when no value holds a comma or whitespace. */
  lemma ParseInsertRoundTrip(table: string, values: seq<string>)
    requires |values| >= 1
    requires forall k :: 0 <= k < |values| ==> PlainItem(values[k])
    ensures ParseQuery(["ADD", table, "("] + ListTokens(values) + [")"]) == Ok(Some(Insert(table, values)))
  {
    var tokens := ["ADD", table, "("] + ListTokens(values) + [")"];
    assert tokens[0] == "ADD" && tokens[1] == table;
    UpperOfKeyword("ADD");
    ParseDispatch(tokens);
    assert Bracketed(tokens) == ListTokens(values);
    CommaListOfItems(tokens, values);
  }

  /** The same round trip for the column specifications of MAKE. */
  lemma ParseCreateRoundTrip(table: string, specs: seq<string>)
    requires |specs| >= 1
    requires forall k :: 0 <= k < |specs| ==> PlainItem(specs[k])
    ensures ParseQuery(["MAKE", table, "("] + ListTokens(specs) + [")"]) == Ok(Some(Create(table, specs)))
  {
    var tokens := ["MAKE", table, "("] + ListTokens(specs) + [")"];
    assert tokens[0] == "MAKE" && tokens[1] == table;
    UpperOfKeyword("MAKE");
    ParseDispatch(tokens);
    assert Bracketed(tokens) == ListTokens(specs);
    CommaListOfItems(tokens, specs);
  }
}
