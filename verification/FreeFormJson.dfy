/** Free-form JSON in the two clients: the Python validator over the loaded value and the TypeScript
    decoder over the parsed node accept the same nodes and keep the same data. */
module FreeFormJson {
  import opened JsonGrammar
  import opened JsonRoundTrip
  import opened Schemas
  import opened Lexemes
  import opened Decoder
  import opened Duplicates
  import opened NeverStuck
  import opened Wrappers

  /** What a JSON text is loaded as.  A float that is not finite has no number; a dictionary lists its
      items in order, one for each key. */
  datatype Loaded =
    | NoneValue | BoolValue(b: bool) | StrValue(s: Text) | IntValue(i: int) | FloatValue(n: Option<Num>)
    | ListValue(items: seq<Loaded>) | DictValue(entries: seq<(Text, Loaded)>)

  /** Every integer is in the shared range and every float is finite. */
  ghost predicate Lossless(v: Loaded) {
    match v
    case IntValue(i) => -9007199254740991 <= i <= 9007199254740991
    case FloatValue(n) => n.Some?
    case ListValue(items) => forall i :: 0 <= i < |items| ==> Lossless(items[i])
    case DictValue(entries) => forall i :: 0 <= i < |entries| ==> Lossless(entries[i].1)
    case _ => true
  }

  /** The recursive validation, with false where it raises. */
  method ValidateFreeFormJson(v: Loaded) returns (ok: bool)
    ensures ok <==> Lossless(v)
    decreases v
  {
    match v
    case IntValue(i) =>
      return -SAFE_INTEGER <= i <= SAFE_INTEGER;
    case FloatValue(n) =>
      return n.Some?;
    case ListValue(items) =>
      for i := 0 to |items|
        invariant forall j :: 0 <= j < i ==> Lossless(items[j])
      {
        var item := ValidateFreeFormJson(items[i]);
        if !item {
          return false;
        }
      }
      return true;
    case DictValue(entries) =>
      for i := 0 to |entries|
        invariant forall j :: 0 <= j < i ==> Lossless(entries[j].1)
      {
        var (key, value) := entries[i];
        var item := ValidateFreeFormJson(value);
        if !item {
          return false;
        }
      }
      return true;
    case _ =>
      return true;
  }

  /** The node as loaded: integer lexemes exactly, other numbers as floats, the last of each duplicated key. */
  function Load(env: Env, node: Node): Loaded
    decreases node
  {
    match node
    case Null => NoneValue
    case Bool(b) => BoolValue(b)
    case Str(s) => StrValue(s)
    case Num(raw) => if IsIntegerToken(raw) then IntValue(IntegerValue(raw)) else FloatValue(env.number(raw))
    case Arr(items) => ListValue(seq(|items|, i requires 0 <= i < |items| => Load(env, items[i])))
    case Obj(ms) =>
      var kept := Kept(ms);
      DictValue(seq(|kept|, i requires 0 <= i < |kept| => (ms[kept[i]].0, Load(env, ms[kept[i]].1))))
  }

  /** The data of a loaded value, in the terms of the other client. */
  ghost function DataOf(v: Loaded): Data
    requires Lossless(v)
    decreases v, 1
  {
    match v
    case NoneValue => DNull
    case BoolValue(b) => DBool(b)
    case StrValue(s) => DStr(s)
    case IntValue(i) => DNum(Binary64(i as real, false))
    case FloatValue(n) => DNum(n.value)
    case ListValue(items) => DArr(seq(|items|, i requires 0 <= i < |items| => DataOf(items[i])))
    case DictValue(entries) => DObj(Record(Keys(entries), EntriesData(entries)))
  }

  function Keys(entries: seq<(Text, Loaded)>): (names: seq<Text>)
    ensures |names| == |entries|
  {
    seq(|entries|, i requires 0 <= i < |entries| => entries[i].0)
  }

  ghost function EntriesData(entries: seq<(Text, Loaded)>): (values: seq<Data>)
    requires forall i :: 0 <= i < |entries| ==> Lossless(entries[i].1)
    ensures |values| == |entries| && forall i :: 0 <= i < |entries| ==> values[i] == DataOf(entries[i].1)
    decreases DictValue(entries), 0
  {
    seq(|entries|, i requires 0 <= i < |entries| => DataOf(entries[i].1))
  }

  /** The outcome matches the loaded value: its data, or a refusal where the validator raises. */
  ghost predicate Matches(o: Outcome, v: Loaded) {
    if Lossless(v) then o == Ok(DataOf(v)) else o.Refused?
  }

  /** A legal number without point and exponent is an integer token. */
  lemma IntegersHaveNoPoint(raw: Text)
    requires Legal(Num(raw))
    ensures Fractional(raw) <==> !IsIntegerToken(raw)
  {
    hide Fractional, IsIntegerToken;
    var n: Number :| n.WellFormed() && n.Text() == raw;
    if n.frac == None && n.exp == None {
      PlainIsToken(n);
      TokenIsPlain(raw);
    } else {
      OthersHavePoint(n);
      if IsIntegerToken(raw) {
        TokenIsPlain(raw);
      }
    }
  }

  lemma PlainIsToken(n: Number)
    requires n.WellFormed() && n.frac == None && n.exp == None
    ensures IsIntegerToken(n.Text())
  {
    assert n.Text() == MinusText(n.minus) + n.integer;
    assert DigitsOf(n.Text()) == n.integer;
  }

  lemma OthersHavePoint(n: Number)
    requires n.WellFormed() && (n.frac.Some? || n.exp.Some?)
    ensures Fractional(n.Text())
  {
    var lead, raw := MinusText(n.minus) + n.integer, n.Text();
    var tail := FracText(n.frac) + ExpText(n.exp);
    assert raw == lead + tail;
    assert tail[0] == DOT || Exponent(tail[0]);
    assert raw[|lead|] == tail[0];
  }

  lemma TokenIsPlain(raw: Text)
    requires IsIntegerToken(raw)
    ensures !Fractional(raw)
  {
    assert forall i :: 0 <= i < |raw| ==> raw[i] == MINUS || Digit(raw[i]);
  }

  lemma NumbersMatch(env: Env, raw: Text, path: Path)
    requires Legal(Num(raw))
    ensures Matches(Untyped(env, Num(raw), path), Load(env, Num(raw)))
  {
    hide Legal, InSharedRange, IntegerValue;
    IntegersHaveNoPoint(raw);
    hide Fractional, IsIntegerToken;
    if IsIntegerToken(raw) {
      SharedRangeIsNumeric(raw);
    }
  }

  /** Outcomes that each match gather to the data of all, or to a refusal when one value is not lossless. */
  lemma {:induction false} GatherMatches(os: seq<Outcome>, vs: seq<Loaded>)
    requires |os| == |vs| && forall i :: 0 <= i < |vs| ==> Matches(os[i], vs[i])
    ensures (forall i :: 0 <= i < |vs| ==> Lossless(vs[i])) ==>
      Gather(os) == All(seq(|vs|, i requires 0 <= i < |vs| && Lossless(vs[i]) => DataOf(vs[i])))
    ensures (exists i :: 0 <= i < |vs| && !Lossless(vs[i])) ==> Gather(os).Stop? && Gather(os).outcome.Refused?
    decreases |os|
  {
    if os != [] {
      GatherMatches(os[1..], vs[1..]);
      assert Matches(os[0], vs[0]);
      if i :| 0 < i < |vs| && !Lossless(vs[i]) {
        assert vs[1..][i - 1] == vs[i];
      }
      if forall i :: 0 <= i < |vs| ==> Lossless(vs[i]) {
        AllCons(os, vs);
      }
    }
  }

  lemma AllCons(os: seq<Outcome>, vs: seq<Loaded>)
    requires os != [] && |os| == |vs| && (forall i :: 0 <= i < |vs| ==> Lossless(vs[i])) && os[0] == Ok(DataOf(vs[0]))
    requires var rest := vs[1..];
      Gather(os[1..]) == All(seq(|rest|, i requires 0 <= i < |rest| && Lossless(rest[i]) => DataOf(rest[i])))
    ensures Gather(os) == All(seq(|vs|, i requires 0 <= i < |vs| && Lossless(vs[i]) => DataOf(vs[i])))
  {
    hide DataOf, Lossless;
    var all := seq(|vs|, i requires 0 <= i < |vs| && Lossless(vs[i]) => DataOf(vs[i]));
    assert Gather(os).values == all;
  }

  /** On every node a text can stand for, the decoder of one client and the validator of the other agree. */
  lemma {:induction false} ClientsAgree(env: Env, node: Node, path: Path)
    requires Legal(node)
    ensures Matches(Untyped(env, node, path), Load(env, node))
    decreases node
  {
    match node
    case Num(raw) => NumbersMatch(env, raw, path);
    case Arr(items) =>
      forall i | 0 <= i < |items|
        ensures Matches(Untyped(env, items[i], path + [Item(i)]), Load(env, items[i])) {
        ClientsAgree(env, items[i], path + [Item(i)]);
      }
      ArraysMatch(env, items, path);
    case Obj(ms) =>
      var k := Kept(ms);
      forall i | 0 <= i < |k| ensures MemberMatches(env, ms[k[i]], path) {
        ClientsAgree(env, ms[k[i]].1, path + [Member(ms[k[i]].0)]);
      }
      ObjectsMatch(env, ms, k, path);
    case _ =>
  }

  lemma ArraysMatch(env: Env, items: seq<Node>, path: Path)
    requires forall i :: 0 <= i < |items| ==> Matches(Untyped(env, items[i], path + [Item(i)]), Load(env, items[i]))
    ensures Matches(Untyped(env, Arr(items), path), Load(env, Arr(items)))
  {
    hide Gather;
    var os := seq(|items|, i requires 0 <= i < |items| => Untyped(env, items[i], path + [Item(i)]));
    var vs := Load(env, Arr(items)).items;
    GatherMatches(os, vs);
    if Lossless(ListValue(vs)) {
      assert DataOf(ListValue(vs)).items == Gather(os).values;
    }
  }

  ghost predicate MemberMatches(env: Env, member: (Text, Node), path: Path) {
    Matches(Untyped(env, member.1, path + [Member(member.0)]), Load(env, member.1))
  }

  lemma ObjectsMatch(env: Env, ms: Members, k: seq<nat>, path: Path)
    requires k == Kept(ms) && forall i :: 0 <= i < |k| ==> MemberMatches(env, ms[k[i]], path)
    ensures Matches(Untyped(env, Obj(ms), path), Load(env, Obj(ms)))
  {
    hide Gather, Record, Kept, Matches, Lossless;
    var os := seq(|k|, i requires 0 <= i < |k| => Untyped(env, ms[k[i]].1, path + [Member(ms[k[i]].0)]));
    var entries := seq(|k|, i requires 0 <= i < |k| => (ms[k[i]].0, Load(env, ms[k[i]].1)));
    assert Load(env, Obj(ms)) == DictValue(entries);
    forall i | 0 <= i < |k| ensures entries[i].0 == NamesOf(ms, k)[i] && Matches(os[i], entries[i].1) {
      assert MemberMatches(env, ms[k[i]], path);
    }
    EntriesMatch(NamesOf(ms, k), os, entries);
  }

  lemma EntriesMatch(names: seq<Text>, os: seq<Outcome>, entries: seq<(Text, Loaded)>)
    requires |names| == |os| == |entries|
    requires forall i :: 0 <= i < |os| ==> entries[i].0 == names[i] && Matches(os[i], entries[i].1)
    ensures Matches(ObjectOf(names, os), DictValue(entries))
  {
    hide Gather, Record;
    var vs := seq(|entries|, i requires 0 <= i < |entries| => entries[i].1);
    GatherMatches(os, vs);
    if Lossless(DictValue(entries)) {
      assert forall i :: 0 <= i < |vs| ==> Lossless(vs[i]);
      assert EntriesData(entries) == Gather(os).values && Keys(entries) == names;
    } else {
      var i :| 0 <= i < |entries| && !Lossless(entries[i].1);
      assert vs[i] == entries[i].1 && !Lossless(vs[i]);
    }
  }
}
