/** Flat JSON objects as the request payload uses them: strings, natural numbers, true, and one nested
    object of strings. Rendering them and reading them back. */
module JsonObjects {
  import opened Bytes
  import opened Results
  import opened Decimal
  import opened JsonText
  import Utf8

  const COMMA: byte := 0x2C
  const COLON: byte := 0x3A
  const OPEN: byte := 0x7B
  const CLOSE: byte := 0x7D

  type Text = seq<byte>
  type Pair = (Text, Text)
  datatype Value = Str(text: Text) | Num(n: nat) | True | Pairs(pairs: seq<Pair>)
  type Member = (Text, Value)

  // ----- comma-separated lists in braces

  function Listed<T>(render: T -> Text, items: seq<T>): Text {
    if items == [] then []
    else Listed(render, items[..|items| - 1]) + (if |items| > 1 then [COMMA] else []) + render(items[|items| - 1])
  }

  function Braced<T>(render: T -> Text, items: seq<T>): Text {
    [OPEN] + Listed(render, items) + [CLOSE]
  }

  /** Reads a non-empty list up to its closing brace. */
  function ReadList<T>(read: Text -> Option<(T, Text)>, s: Text): (r: Option<(seq<T>, Text)>)
    decreases |s|
  {
    match read(s)
    case None => None
    case Some((item, rest)) =>
      if rest == [] || |rest| > |s| then None
      else if rest[0] == CLOSE then Some(([item], rest[1..]))
      else if rest[0] != COMMA then None
      else
        match ReadList(read, rest[1..])
        case None => None
        case Some((more, end)) => Some(([item] + more, end))
  }

  function ReadBraced<T>(read: Text -> Option<(T, Text)>, s: Text): (r: Option<(seq<T>, Text)>) {
    if |s| < 2 || s[0] != OPEN then None
    else if s[1] == CLOSE then Some(([], s[2..]))
    else ReadList(read, s[1..])
  }

  /** Nothing that could continue a number follows. */
  predicate Delimited(rest: Text) {
    !StartsWithDigit(rest)
  }

  /** Whatever follows it, the rendered item reads as `image`. */
  ghost predicate ReadsAs<T(!new)>(read: Text -> Option<(T, Text)>, render: T -> Text, item: T, image: T) {
    && render(item) != [] && render(item)[0] == QUOTE
    && forall rest | Delimited(rest) :: read(render(item) + rest) == Some((image, rest))
  }

  lemma ListedSnoc<T>(render: T -> Text, items: seq<T>, item: T)
    ensures Listed(render, items + [item])
        == Listed(render, items) + (if items != [] then [COMMA] else []) + render(item)
  {
    assert (items + [item])[..|items|] == items;
  }

  lemma {:induction false} ListedCons<T>(render: T -> Text, items: seq<T>)
    requires |items| > 1
    ensures Listed(render, items) == render(items[0]) + ([COMMA] + Listed(render, items[1..]))
  {
    var init, last := items[..|items| - 1], items[|items| - 1];
    assert Listed(render, items) == Listed(render, init) + [COMMA] + render(last);
    assert items[1..][..|items| - 2] == init[1..];
    if |items| == 2 {
      assert init == [items[0]] && init[..0] == [];
      assert Listed(render, init) == render(items[0]);
      assert Listed(render, items[1..]) == render(last);
      ConcatIsAssociative(render(items[0]), [COMMA], render(last));
    } else {
      ListedCons(render, init);
      var inner := Listed(render, init[1..]);
      assert Listed(render, items[1..]) == inner + [COMMA] + render(last);
      ConcatIsAssociative(render(items[0]), [COMMA] + inner, [COMMA]);
      ConcatIsAssociative(render(items[0]), [COMMA] + inner + [COMMA], render(last));
      assert [COMMA] + inner + [COMMA] + render(last) == [COMMA] + (inner + [COMMA] + render(last));
    }
  }

  lemma {:induction false} ListReadsBack<T(!new)>(
      read: Text -> Option<(T, Text)>, render: T -> Text, items: seq<T>, images: seq<T>, rest: Text)
    requires items != [] && |images| == |items|
    requires forall i | 0 <= i < |items| :: ReadsAs(read, render, items[i], images[i])
    ensures Listed(render, items) != [] && Listed(render, items)[0] == QUOTE
    ensures ReadList(read, Listed(render, items) + ([CLOSE] + rest)) == Some((images, rest))
    decreases |items|
  {
    assert ReadsAs(read, render, items[0], images[0]);
    if |items| == 1 {
      assert items[..0] == [] && items == [items[0]] && images == [images[0]];
      assert Listed(render, items) == render(items[0]);
      assert ([CLOSE] + rest)[1..] == rest;
    } else {
      ListedCons(render, items);
      ListReadsBack(read, render, items[1..], images[1..], rest);
      ListContinues(read, render(items[0]), images[0], Listed(render, items[1..]) + ([CLOSE] + rest));
      ConcatIsAssociative(render(items[0]), [COMMA] + Listed(render, items[1..]), [CLOSE] + rest);
      ConcatIsAssociative([COMMA], Listed(render, items[1..]), [CLOSE] + rest);
      assert [images[0]] + images[1..] == images;
    }
  }

  lemma ListContinues<T(!new)>(read: Text -> Option<(T, Text)>, text: Text, item: T, tail: Text)
    requires read(text + ([COMMA] + tail)) == Some((item, [COMMA] + tail))
    requires ReadList(read, tail).Some?
    ensures ReadList(read, text + ([COMMA] + tail))
        == Some(([item] + ReadList(read, tail).value.0, ReadList(read, tail).value.1))
  {
    assert ([COMMA] + tail)[1..] == tail;
  }

  lemma BracedReadsBack<T(!new)>(
      read: Text -> Option<(T, Text)>, render: T -> Text, items: seq<T>, images: seq<T>, rest: Text)
    requires |images| == |items| && forall i | 0 <= i < |items| :: ReadsAs(read, render, items[i], images[i])
    ensures ReadBraced(read, Braced(render, items) + rest) == Some((images, rest))
  {
    var all := Braced(render, items) + rest;
    assert all == [OPEN] + (Listed(render, items) + ([CLOSE] + rest));
    assert all[1..] == Listed(render, items) + ([CLOSE] + rest);
    if items == [] {
      assert all[2..] == rest && images == [];
    } else {
      ListReadsBack(read, render, items, images, rest);
      assert all[1] == QUOTE;
    }
  }

  // ----- values, pairs and members

  function RenderPair(pair: Pair): Text {
    Quoted(pair.0) + [COLON] + Quoted(pair.1)
  }

  function RenderValue(v: Value): Text {
    match v
    case Str(text) => Quoted(text)
    case Num(n) => AsciiDigits(Digits(n))
    case True => [0x74, 0x72, 0x75, 0x65]
    case Pairs(pairs) => Braced(RenderPair, pairs)
  }

  function RenderMember(m: Member): Text {
    Quoted(m.0) + [COLON] + RenderValue(m.1)
  }

  /** A quoted name, a colon, and what follows. */
  function ReadName(s: Text): Option<(Text, Text)> {
    match ReadString(s)
    case None => None
    case Some((name, rest)) => if rest == [] || rest[0] != COLON then None else Some((name, rest[1..]))
  }

  function ReadPair(s: Text): Option<(Pair, Text)> {
    match ReadName(s)
    case None => None
    case Some((name, rest)) =>
      match ReadString(rest)
      case None => None
      case Some((value, end)) => Some(((name, value), end))
  }

  function ReadValue(s: Text): Option<(Value, Text)> {
    if s == [] then None
    else if s[0] == QUOTE then
      (match ReadString(s)
       case None => None
       case Some((text, rest)) => Some((Str(text), rest)))
    else if IsDigit(s[0]) then Some((Num(Number(ReadDigits(s).0)), ReadDigits(s).1))
    else if s[0] == OPEN then
      (match ReadBraced(ReadPair, s)
       case None => None
       case Some((pairs, rest)) => Some((Pairs(pairs), rest)))
    else if |s| >= 4 && s[..4] == [0x74, 0x72, 0x75, 0x65] then Some((True, s[4..]))
    else None
  }

  function ReadMember(s: Text): Option<(Member, Text)> {
    match ReadName(s)
    case None => None
    case Some((name, rest)) =>
      match ReadValue(rest)
      case None => None
      case Some((value, end)) => Some(((name, value), end))
  }

  predicate ValidPair(pair: Pair) {
    Utf8.Valid(pair.0) && Utf8.Valid(pair.1)
  }

  /** Every string in the value is UTF-8. */
  predicate ValidValue(v: Value) {
    match v
    case Str(text) => Utf8.Valid(text)
    case Num(_) => true
    case True => true
    case Pairs(pairs) => forall i | 0 <= i < |pairs| :: ValidPair(pairs[i])
  }

  predicate ValidMember(m: Member) {
    Utf8.Valid(m.0) && ValidValue(m.1)
  }

  // ----- reading back, with every string repaired

  function RepairedPair(pair: Pair): Pair {
    (Utf8.Repair(pair.0), Utf8.Repair(pair.1))
  }

  function RepairedPairs(pairs: seq<Pair>): (r: seq<Pair>)
    ensures |r| == |pairs| && forall i | 0 <= i < |pairs| :: r[i] == RepairedPair(pairs[i])
  {
    seq(|pairs|, i requires 0 <= i < |pairs| => RepairedPair(pairs[i]))
  }

  function RepairedValue(v: Value): Value {
    match v
    case Str(text) => Str(Utf8.Repair(text))
    case Num(_) => v
    case True => v
    case Pairs(pairs) => Pairs(RepairedPairs(pairs))
  }

  function RepairedMember(m: Member): Member {
    (Utf8.Repair(m.0), RepairedValue(m.1))
  }

  function RepairedMembers(members: seq<Member>): (r: seq<Member>)
    ensures |r| == |members| && forall i | 0 <= i < |members| :: r[i] == RepairedMember(members[i])
  {
    seq(|members|, i requires 0 <= i < |members| => RepairedMember(members[i]))
  }

  lemma NameReadsBack(name: Text, rest: Text)
    ensures ReadName(Quoted(name) + [COLON] + rest) == Some((Utf8.Repair(name), rest))
  {
    StringReadsBack(name, [COLON] + rest);
    ConcatIsAssociative(Quoted(name), [COLON], rest);
    assert ([COLON] + rest)[1..] == rest;
  }

  lemma PairReadsBack(pair: Pair)
    ensures ReadsAs(ReadPair, RenderPair, pair, RepairedPair(pair))
  {
    forall rest ensures ReadPair(RenderPair(pair) + rest) == Some((RepairedPair(pair), rest)) {
      ConcatIsAssociative(Quoted(pair.0) + [COLON], Quoted(pair.1), rest);
      NameReadsBack(pair.0, Quoted(pair.1) + rest);
      StringReadsBack(pair.1, rest);
    }
  }

  lemma ValueReadsBack(v: Value, rest: Text)
    requires Delimited(rest)
    ensures ReadValue(RenderValue(v) + rest) == Some((RepairedValue(v), rest))
  {
    var all := RenderValue(v) + rest;
    match v
    case Str(text) => StringReadsBack(text, rest);
    case Num(n) =>
      DigitsReadBack(Digits(n), rest);
      NumberInvertsDigits(n);
      assert IsDigit(all[0]);
    case True => assert all[..4] == [0x74, 0x72, 0x75, 0x65] && all[4..] == rest;
    case Pairs(pairs) => PairsReadBack(pairs, rest);
  }

  lemma PairsReadBack(pairs: seq<Pair>, rest: Text)
    ensures ReadBraced(ReadPair, Braced(RenderPair, pairs) + rest) == Some((RepairedPairs(pairs), rest))
  {
    forall i | 0 <= i < |pairs| ensures ReadsAs(ReadPair, RenderPair, pairs[i], RepairedPairs(pairs)[i]) {
      PairReadsBack(pairs[i]);
    }
    BracedReadsBack(ReadPair, RenderPair, pairs, RepairedPairs(pairs), rest);
  }

  lemma MemberReadsBack(m: Member)
    ensures ReadsAs(ReadMember, RenderMember, m, RepairedMember(m))
  {
    forall rest | Delimited(rest) ensures ReadMember(RenderMember(m) + rest) == Some((RepairedMember(m), rest)) {
      ConcatIsAssociative(Quoted(m.0) + [COLON], RenderValue(m.1), rest);
      NameReadsBack(m.0, RenderValue(m.1) + rest);
      ValueReadsBack(m.1, rest);
    }
  }

  function RenderObject(members: seq<Member>): Text {
    Braced(RenderMember, members)
  }

  /** Reads a whole document. */
  function ReadObject(s: Text): Option<seq<Member>> {
    match ReadBraced(ReadMember, s)
    case None => None
    case Some((members, rest)) => if rest == [] then Some(members) else None
  }

  /** Every object reads back with its strings repaired. */
  lemma ObjectReadsBack(members: seq<Member>)
    ensures ReadObject(RenderObject(members)) == Some(RepairedMembers(members))
  {
    forall i | 0 <= i < |members| ensures ReadsAs(ReadMember, RenderMember, members[i], RepairedMembers(members)[i]) {
      MemberReadsBack(members[i]);
    }
    BracedReadsBack(ReadMember, RenderMember, members, RepairedMembers(members), []);
    assert RenderObject(members) + [] == RenderObject(members);
  }

  // ----- whatever is read is UTF-8

  lemma NameIsUtf8(s: Text)
    requires ReadName(s).Some?
    ensures Utf8.Valid(ReadName(s).value.0)
  {
    ReadsUtf8(s[1..]);
  }

  lemma PairIsUtf8(s: Text)
    requires ReadPair(s).Some?
    ensures ValidPair(ReadPair(s).value.0)
  {
    NameIsUtf8(s);
    var rest := ReadName(s).value.1;
    ReadsUtf8(rest[1..]);
  }

  lemma {:induction false} PairsAreUtf8(s: Text)
    requires ReadList(ReadPair, s).Some?
    ensures forall i | 0 <= i < |ReadList(ReadPair, s).value.0| :: ValidPair(ReadList(ReadPair, s).value.0[i])
    decreases |s|
  {
    PairIsUtf8(s);
    var rest := ReadPair(s).value.1;
    if rest[0] == COMMA { PairsAreUtf8(rest[1..]); }
  }

  lemma MemberIsUtf8(s: Text)
    requires ReadMember(s).Some?
    ensures ValidMember(ReadMember(s).value.0)
  {
    NameIsUtf8(s);
    var rest := ReadName(s).value.1;
    if rest[0] == QUOTE {
      ReadsUtf8(rest[1..]);
    } else if !IsDigit(rest[0]) && rest[0] == OPEN && rest[1] != CLOSE {
      PairsAreUtf8(rest[1..]);
    }
  }

  lemma {:induction false} MembersAreUtf8(s: Text)
    requires ReadList(ReadMember, s).Some?
    ensures forall i | 0 <= i < |ReadList(ReadMember, s).value.0| :: ValidMember(ReadList(ReadMember, s).value.0[i])
    decreases |s|
  {
    MemberIsUtf8(s);
    var rest := ReadMember(s).value.1;
    if rest[0] == COMMA { MembersAreUtf8(rest[1..]); }
  }

  lemma ObjectIsUtf8(s: Text)
    requires ReadObject(s).Some?
    ensures forall i | 0 <= i < |ReadObject(s).value| :: ValidMember(ReadObject(s).value[i])
  {
    if s[1] != CLOSE { MembersAreUtf8(s[1..]); }
  }
}
