/** Parsing of struct tags such as "primaryKey;size:255;default:0". */
module TagParser {
  import opened Common

  datatype Result = Ok(params: map<string, string>) | Invalid(key: string)

  /** Whether the validator registered for a key, if any, accepts a value. */
  type Validator = (string, string) -> bool

  // ----- Text -----

  /** unicode.IsSpace */
  predicate IsSpace(c: char) {
    var n := c as int;
    9 <= n <= 13 || n == 32 || n == 0x85 || n == 0xa0 || n == 0x1680 || 0x2000 <= n <= 0x200a ||
    n == 0x2028 || n == 0x2029 || n == 0x202f || n == 0x205f || n == 0x3000
  }

  function TrimLeft(s: string): (t: string)
    ensures t == "" || !IsSpace(t[0])
    ensures forall c :: c in t ==> c in s
  {
    if s != "" && IsSpace(s[0]) then TrimLeft(s[1..]) else s
  }

  function TrimRight(s: string): (t: string)
    ensures t == "" || !IsSpace(t[|t| - 1])
    ensures t <= s
  {
    if s != "" && IsSpace(s[|s| - 1]) then TrimRight(s[..|s| - 1]) else s
  }

  function TrimSpace(s: string): string {
    TrimRight(TrimLeft(s))
  }

  predicate Trimmed(s: string) {
    s == "" || (!IsSpace(s[0]) && !IsSpace(s[|s| - 1]))
  }

  lemma TrimSpaceTrims(s: string)
    ensures Trimmed(TrimSpace(s))
    ensures forall c :: c in TrimSpace(s) ==> c in s
  {
    var l := TrimLeft(s);
    assert TrimRight(l) != "" ==> TrimRight(l)[0] == l[0];
  }

  predicate AllSpace(s: string) {
    forall c :: c in s ==> IsSpace(c)
  }

  lemma SpacesJoined(a: string, b: string, c: string)
    requires AllSpace(a) && AllSpace(b)
    ensures AllSpace(a + b) && a + (b + c) == (a + b) + c
  {
    Regroup(a, b, c);
  }

  lemma {:induction false} TrimLeftSplits(s: string) returns (a: string)
    ensures s == a + TrimLeft(s) && AllSpace(a)
    decreases |s|
  {
    if s == "" || !IsSpace(s[0]) {
      return "";
    }
    var rest := TrimLeftSplits(s[1..]);
    SpacesJoined([s[0]], rest, TrimLeft(s));
    return [s[0]] + rest;
  }

  lemma {:induction false} TrimRightSplits(s: string) returns (b: string)
    ensures s == TrimRight(s) + b && AllSpace(b)
    decreases |s|
  {
    if s == "" || !IsSpace(s[|s| - 1]) {
      return "";
    }
    var rest := TrimRightSplits(s[..|s| - 1]);
    Regroup(TrimRight(s), rest, [s[|s| - 1]]);
    return rest + [s[|s| - 1]];
  }

  /** Nothing but spaces is cut off, at either end. */
  lemma TrimSpaceSplits(s: string) returns (a: string, b: string)
    ensures s == a + TrimSpace(s) + b && AllSpace(a) && AllSpace(b)
  {
    a := TrimLeftSplits(s);
    b := TrimRightSplits(TrimLeft(s));
    Regroup(a, TrimSpace(s), b);
  }

  lemma TrimmedStays(s: string)
    requires Trimmed(s)
    ensures TrimSpace(s) == s
  {
  }

  /** The index of the first colon, or the length. */
  function FirstColon(s: string): (n: nat)
    ensures n <= |s| && ':' !in s[..n]
    ensures n < |s| ==> s[n] == ':'
    ensures ':' in s <==> n < |s|
  {
    if s == "" || s[0] == ':' then 0
    else
      assert s == [s[0]] + s[1..];
      1 + FirstColon(s[1..])
  }

  // ----- Parsing -----

  /** What one part between semicolons says. */
  datatype Item = Pair(key: string, value: string) | Flag(name: string)

  function ItemOf(part: string): Option<Item> {
    ItemOfTrimmed(TrimSpace(part))
  }

  function ItemOfTrimmed(t: string): Option<Item> {
    if t == "" then None else if ':' in t then Some(PairAt(t, FirstColon(t))) else Some(Flag(t))
  }

  function PairAt(t: string, n: nat): Item
    requires n < |t|
  {
    Pair(TrimSpace(t[..n]), TrimSpace(t[n + 1..]))
  }

  function ApplyItem(item: Item, params: map<string, string>, valid: Validator): Result {
    match item
    case Pair(key, value) => if valid(key, value) then Ok(params[key := value]) else Invalid(key)
    case Flag(name) => Ok(params[name := "true"])
  }

  function ApplyAll(items: seq<Item>, params: map<string, string>, valid: Validator): Result {
    if items == [] then Ok(params)
    else
      match ApplyItem(items[0], params, valid)
      case Invalid(key) => Invalid(key)
      case Ok(p) => ApplyAll(items[1..], p, valid)
  }

  function ItemsOf(parts: seq<string>): seq<Item> {
    if parts == [] then []
    else
      var rest := ItemsOf(parts[1..]);
      match ItemOf(parts[0])
      case None => rest
      case Some(item) => [item] + rest
  }

  function Parse(tag: string, valid: Validator): Result {
    ApplyAll(ItemsOf(Split(tag, ';')), map[], valid)
  }

  /** What one part does to the parameters read so far. */
  function ApplyPart(part: string, params: map<string, string>, valid: Validator): Result {
    match ItemOf(part)
    case None => Ok(params)
    case Some(item) => ApplyItem(item, params, valid)
  }

  lemma PartByPart(parts: seq<string>, i: nat, params: map<string, string>, valid: Validator)
    requires i < |parts|
    ensures ApplyAll(ItemsOf(parts[i..]), params, valid) ==
      match ApplyPart(parts[i], params, valid)
      case Invalid(key) => Invalid(key)
      case Ok(p) => ApplyAll(ItemsOf(parts[i + 1..]), p, valid)
  {
    var rest := ItemsOf(parts[i + 1..]);
    assert parts[i..][0] == parts[i] && parts[i..][1..] == parts[i + 1..];
    if ItemOf(parts[i]).Some? {
      assert ([ItemOf(parts[i]).value] + rest)[1..] == rest;
    }
  }

  method ParseTagParameters(tag: string, valid: Validator) returns (r: Result)
    ensures r == Parse(tag, valid)
  {
    var params: map<string, string> := map[];
    var parts := Split(tag, ';');
    assert parts[0..] == parts;
    for i := 0 to |parts|
      invariant Parse(tag, valid) == ApplyAll(ItemsOf(parts[i..]), params, valid)
    {
      PartByPart(parts, i, params, valid);
      var part := TrimSpace(parts[i]);
      if part == "" {
        continue;
      }
      if ':' in part {
        var n := FirstColon(part);
        var key, value := TrimSpace(part[..n]), TrimSpace(part[n + 1..]);
        if !valid(key, value) {
          return Invalid(key);
        }
        params := params[key := value];
      } else {
        params := params[part := "true"];
      }
    }
    return Ok(params);
  }

  // ----- Joining tags -----

  lemma {:induction false} ItemsOfConcat(p: seq<string>, q: seq<string>)
    ensures ItemsOf(p + q) == ItemsOf(p) + ItemsOf(q)
    decreases |p|
  {
    if p == [] {
      assert p + q == q;
    } else {
      assert (p + q)[1..] == p[1..] + q;
      ItemsOfConcat(p[1..], q);
    }
  }

  /** Parsing goes on from where it is: earlier parameters stay unless set again. */
  lemma {:induction false} ApplyOnTop(items: seq<Item>, params: map<string, string>, valid: Validator)
    ensures ApplyAll(items, params, valid) == match ApplyAll(items, map[], valid)
                                              case Invalid(key) => Invalid(key)
                                              case Ok(p) => Ok(params + p)
    decreases |items|
  {
    if items == [] {
      assert params + map[] == params;
    } else {
      var rest := items[1..];
      match ApplyItem(items[0], map[], valid)
      case Invalid(_) =>
      case Ok(first) =>
        ApplyOnTop(rest, params + first, valid);
        ApplyOnTop(rest, first, valid);
        assert ApplyItem(items[0], params, valid) == Ok(params + first);
        if ApplyAll(rest, map[], valid).Ok? {
          var p := ApplyAll(rest, map[], valid).params;
          assert (params + first) + p == params + (first + p);
        }
    }
  }

  lemma {:induction false} ApplyConcat(p: seq<Item>, q: seq<Item>, params: map<string, string>, valid: Validator)
    ensures ApplyAll(p + q, params, valid) == match ApplyAll(p, params, valid)
                                              case Invalid(key) => Invalid(key)
                                              case Ok(m) => ApplyAll(q, m, valid)
    decreases |p|
  {
    if p == [] {
      assert p + q == q;
    } else {
      assert (p + q)[1..] == p[1..] + q;
      match ApplyItem(p[0], params, valid)
      case Invalid(_) =>
      case Ok(m) => ApplyConcat(p[1..], q, m, valid);
    }
  }

  /** Parsing a;b is parsing a overridden by parsing b; it fails exactly when one of them does,
      with the first one's error. */
  lemma ParseJoined(a: string, b: string, valid: Validator)
    ensures Parse(a + ";" + b, valid) ==
      if Parse(a, valid).Invalid? then Parse(a, valid)
      else if Parse(b, valid).Invalid? then Parse(b, valid)
      else Ok(Parse(a, valid).params + Parse(b, valid).params)
  {
    var p, q := Split(a, ';'), Split(b, ';');
    SplitJoined(a, b, ';');
    ItemsOfConcat(p, q);
    ApplyConcat(ItemsOf(p), ItemsOf(q), map[], valid);
    if Parse(a, valid).Ok? {
      ApplyOnTop(ItemsOf(q), Parse(a, valid).params, valid);
    }
  }

  // ----- Rendering and parsing back -----

  /** An item that can stand in a tag as it is. */
  predicate Clean(item: Item) {
    match item
    case Pair(key, value) =>
      Trimmed(key) && Trimmed(value) && ';' !in key && ':' !in key && ';' !in value
    case Flag(name) =>
      name != "" && Trimmed(name) && ';' !in name && ':' !in name
  }

  function Render(item: Item): string {
    match item
    case Pair(key, value) => key + ":" + value
    case Flag(name) => name
  }

  function RenderAll(items: seq<Item>): string {
    if items == [] then ""
    else if |items| == 1 then Render(items[0])
    else Render(items[0]) + ";" + RenderAll(items[1..])
  }

  lemma {:induction false} FirstColonAfter(a: string, b: string)
    requires ':' !in a
    ensures FirstColon(a + ":" + b) == |a|
    decreases |a|
  {
    if a != "" {
      assert a[0] in a && forall c :: c in a[1..] ==> c in a;
      assert (a + ":" + b)[1..] == a[1..] + ":" + b;
      FirstColonAfter(a[1..], b);
    }
  }

  lemma PairTrimmed(key: string, value: string)
    requires Trimmed(key) && Trimmed(value)
    ensures Trimmed(key + ":" + value)
  {
    var t := key + ":" + value;
    assert t[0] == if key == "" then ':' else key[0];
    assert t[|t| - 1] == if value == "" then ':' else value[|value| - 1];
  }

  lemma PairAtColon(key: string, value: string)
    requires Trimmed(key) && Trimmed(value)
    ensures PairAt(key + ":" + value, |key|) == Pair(key, value)
  {
    var t := key + ":" + value;
    assert t[..|key|] == key && t[|key| + 1..] == value;
    TrimmedStays(key);
    TrimmedStays(value);
  }

  lemma RenderedItem(item: Item)
    requires Clean(item)
    ensures ItemOf(Render(item)) == Some(item) && ';' !in Render(item)
  {
    match item
    case Flag(name) => TrimmedStays(name);
    case Pair(key, value) =>
      PairTrimmed(key, value);
      TrimmedStays(key + ":" + value);
      FirstColonAfter(key, value);
      PairAtColon(key, value);
  }

  lemma {:induction false} ItemsOfRendered(items: seq<Item>)
    requires forall item :: item in items ==> Clean(item)
    ensures ItemsOf(Split(RenderAll(items), ';')) == items
    decreases |items|
  {
    if items != [] {
      var first, rest := Render(items[0]), items[1..];
      RenderedItem(items[0]);
      SplitSingle(first, ';');
      ItemsOfOne(first, items[0]);
      assert items == [items[0]] + rest;
      if |items| > 1 {
        ItemsOfRendered(rest);
        SplitJoined(first, RenderAll(rest), ';');
        ItemsOfConcat([first], Split(RenderAll(rest), ';'));
      }
    } else {
      ItemsOfNone();
    }
  }

  lemma ItemsOfOne(part: string, item: Item)
    requires ItemOf(part) == Some(item)
    ensures ItemsOf([part]) == [item]
  {
    assert [part][1..] == [];
  }

  lemma ItemsOfNone()
    ensures ItemsOf(Split("", ';')) == []
  {
    assert TrimSpace("") == "";
    assert [""][1..] == [];
  }

  /** Parsing inverts rendering: any list of clean items, in any order, is read back as it is. */
  lemma ParseRendered(items: seq<Item>, valid: Validator)
    requires forall item :: item in items ==> Clean(item)
    ensures Parse(RenderAll(items), valid) == ApplyAll(items, map[], valid)
  {
    ItemsOfRendered(items);
  }

  /** A tag of one part: a pair is checked and stored, a flag stands for "true". */
  lemma ParseOne(item: Item, valid: Validator)
    requires Clean(item)
    ensures Parse(Render(item), valid) ==
      if item.Flag? then Ok(map[item.name := "true"])
      else if valid(item.key, item.value) then Ok(map[item.key := item.value])
      else Invalid(item.key)
  {
    ParseRendered([item], valid);
    assert [item][1..] == [];
  }

  /** The pairs of a map, listed by its keys. */
  function PairsOf(m: map<string, string>, keys: seq<string>): seq<Item>
    requires forall k :: k in keys ==> k in m
  {
    seq(|keys|, i requires 0 <= i < |keys| => Pair(keys[i], m[keys[i]]))
  }

  /** ... so a map of clean and valid pairs comes back whole, in whatever order it is rendered. */
  lemma MapRoundTrip(m: map<string, string>, keys: seq<string>, valid: Validator)
    requires forall k :: k in keys <==> k in m
    requires forall k :: k in m ==> Clean(Pair(k, m[k])) && valid(k, m[k])
    ensures Parse(RenderAll(PairsOf(m, keys)), valid) == Ok(m)
  {
    var items := PairsOf(m, keys);
    forall item | item in items ensures Clean(item) {
      var i :| 0 <= i < |keys| && item == Pair(keys[i], m[keys[i]]);
      assert keys[i] in keys;
    }
    ParseRendered(items, valid);
    ApplyPairs(m, keys, valid);
    Restricted(m, keys);
  }

  lemma Restricted(m: map<string, string>, keys: seq<string>)
    requires forall k :: k in keys <==> k in m
    ensures (map k | k in keys :: m[k]) == m
  {
  }

  lemma {:induction false} ApplyPairs(m: map<string, string>, keys: seq<string>, valid: Validator)
    requires forall k :: k in keys ==> k in m && valid(k, m[k])
    ensures ApplyAll(PairsOf(m, keys), map[], valid) == Ok(map k | k in keys :: m[k])
    decreases |keys|
  {
    if keys != [] {
      var items := PairsOf(m, keys);
      assert items[1..] == PairsOf(m, keys[1..]);
      ApplyPairs(m, keys[1..], valid);
      ApplyOnTop(items[1..], map[keys[0] := m[keys[0]]], valid);
      assert keys == [keys[0]] + keys[1..];
      assert map[keys[0] := m[keys[0]]] + (map k | k in keys[1..] :: m[k]) == (map k | k in keys :: m[k]);
    }
  }

  // ----- Normal form -----

  lemma ItemsAreClean(part: string)
    requires ';' !in part && ItemOf(part).Some?
    ensures Clean(ItemOf(part).value)
  {
    var t := TrimSpace(part);
    TrimSpaceTrims(part);
    if ':' in t {
      TrimSpaceTrims(t[..FirstColon(t)]);
      TrimSpaceTrims(t[FirstColon(t) + 1..]);
    }
  }

  lemma {:induction false} AllItemsAreClean(parts: seq<string>)
    requires forall p :: p in parts ==> ';' !in p
    ensures forall item :: item in ItemsOf(parts) ==> Clean(item)
    decreases |parts|
  {
    if parts != [] {
      assert parts[0] in parts && forall p :: p in parts[1..] ==> p in parts;
      AllItemsAreClean(parts[1..]);
      if ItemOf(parts[0]).Some? { ItemsAreClean(parts[0]); }
    }
  }

  /** Every tag, valid or not, parses as its normal form does: trimmed, without empty parts. */
  lemma NormalForm(tag: string, valid: Validator)
    ensures Parse(RenderAll(ItemsOf(Split(tag, ';'))), valid) == Parse(tag, valid)
  {
    AllItemsAreClean(Split(tag, ';'));
    ParseRendered(ItemsOf(Split(tag, ';')), valid);
  }
}
