/** The scanner as the source has it (`checked-flow-artifact.ts`): an object that moves an index over the
    text and counts the values it has spent. Each method is proved to do what the reading functions say. */
module JsonScanner {
  import opened Folding
  import opened DigitText
  import opened JsonText
  import opened CanonicalJson

  datatype Outcome<T> = Done(value: T) | Refusal(code: string)

  // ----- Scanning a string body -----

  /** Scanning `t` is scanning `rest` after `k` units. */
  ghost predicate LongerBy(t: Text, k: nat, rest: Text) {
    forall key {:trigger Unlock(key)} :: Unlock(key) ==> ScanBody(t) == Longer(k, ScanBody(rest))
  }

  /** The scan of a string body has come as far as `k` without finding anything wrong. */
  ghost predicate ScannedTo(body: Text, k: int) {
    0 <= k <= |body| && LongerBy(body, k, body[k..])
  }

  ghost predicate Stops(body: Text, code: string) {
    forall key {:trigger Unlock(key)} :: Unlock(key) ==> ScanBody(body) == Refused(code)
  }

  lemma ScanBegins(body: Text)
    ensures ScannedTo(body, 0)
  {
    assert body[0..] == body;
  }

  lemma Compose(t: Text, k: nat, mid: Text, step: nat, rest: Text)
    requires LongerBy(t, k, mid) && LongerBy(mid, step, rest)
    ensures LongerBy(t, k + step, rest)
  {
    assert Unlock(true);
  }

  lemma GoesOn(body: Text, k: int, step: nat)
    requires ScannedTo(body, k) && k + step <= |body| && LongerBy(body[k..], step, body[k..][step..])
    ensures ScannedTo(body, k + step)
  {
    Compose(body, k, body[k..], step, body[k..][step..]);
    assert body[k..][step..] == body[k + step..];
  }

  lemma RawScans(t: Text)
    requires t != [] && t[0] >= 0x20 && t[0] != QUOTE && t[0] != BACKSLASH
    ensures LongerBy(t, 1, t[1..])
  {}

  lemma ShortScans(t: Text)
    requires |t| > 1 && t[0] == BACKSLASH && IsShort(t[1])
    ensures LongerBy(t, 2, t[2..])
  {}

  lemma FourScans(t: Text)
    requires |t| > 1 && t[0] == BACKSLASH && t[1] == LOWER_U && FourHex(t[2..])
    ensures LongerBy(t, 6, t[6..])
  {}

  lemma RawGoesOn(body: Text, k: int)
    requires ScannedTo(body, k) && 0 <= k < |body| && body[k] >= 0x20 && body[k] != QUOTE && body[k] != BACKSLASH
    ensures ScannedTo(body, k + 1)
  {
    RawScans(body[k..]);
    GoesOn(body, k, 1);
  }

  lemma ShortGoesOn(body: Text, k: int)
    requires ScannedTo(body, k) && 0 <= k < |body| - 1 && body[k] == BACKSLASH && IsShort(body[k + 1])
    ensures ScannedTo(body, k + 2)
  {
    ShortScans(body[k..]);
    GoesOn(body, k, 2);
  }

  lemma FourGoesOn(body: Text, k: int)
    requires ScannedTo(body, k) && 0 <= k < |body| - 1 && body[k] == BACKSLASH && body[k + 1] == LOWER_U && FourHex(body[k + 2..])
    ensures k + 6 <= |body| && ScannedTo(body, k + 6)
  {
    assert body[k..][2..] == body[k + 2..];
    FourScans(body[k..]);
    GoesOn(body, k, 6);
  }

  lemma EndStops(body: Text, k: int)
    requires ScannedTo(body, k) && k == |body|
    ensures Stops(body, "JSON_STRING_TRUNCATED")
  {
    assert Unlock(true);
  }

  lemma ControlStops(body: Text, k: int)
    requires ScannedTo(body, k) && 0 <= k < |body| && body[k] < 0x20
    ensures Stops(body, "JSON_STRING_CONTROL")
  {
    assert Unlock(true);
  }

  lemma EscapeStops(body: Text, k: int)
    requires ScannedTo(body, k) && 0 <= k < |body| && body[k] == BACKSLASH
    requires if k + 1 < |body| && body[k + 1] == LOWER_U then !FourHex(body[k + 2..]) else k + 1 == |body| || !IsShort(body[k + 1])
    ensures Stops(body, "JSON_ESCAPE")
  {
    assert Unlock(true);
    var t := body[k..];
    assert k + 1 < |body| ==> t[1] == body[k + 1] && t[2..] == body[k + 2..];
  }

  // ----- Folded outcomes of strings and keys -----

  ghost predicate TextGives(t: Text, nfc: Text -> bool, r: Read<Text>) {
    forall key {:trigger Unlock(key)} :: Unlock(key) ==> t != [] && ReadString(t, nfc) == r
  }

  ghost predicate KeyGives(t: Text, before: seq<Field>, nfc: Text -> bool, r: Read<Text>) {
    forall key {:trigger Unlock(key)} :: Unlock(key) ==> ReadKey(t, before, nfc) == r
  }

  lemma QuoteEnds(t: Text, body: Text, k: int, nfc: Text -> bool)
    requires t != [] && body == t[1..] && ScannedTo(body, k) && 0 <= k < |body| && body[k] == QUOTE
    ensures TextGives(t, nfc, Finished(body[..k], body[k + 1..], nfc))
  {
    assert Unlock(true);
    assert body[k..][1..] == body[k + 1..];
    assert t[1..k + 1] == body[..k];
  }

  lemma StringStops(t: Text, body: Text, code: string, nfc: Text -> bool)
    requires t != [] && body == t[1..] && Stops(body, code)
    ensures TextGives(t, nfc, Refused(code))
  {
    assert Unlock(true);
  }

  lemma KeyWithoutQuote(t: Text, before: seq<Field>, nfc: Text -> bool)
    requires t == [] || t[0] != QUOTE
    ensures KeyGives(t, before, nfc, Refused("JSON_OBJECT_KEY"))
  {}

  lemma KeyAfterText(t: Text, before: seq<Field>, nfc: Text -> bool, r: Read<Text>)
    requires t != [] && t[0] == QUOTE && TextGives(t, nfc, r)
    ensures r.Refused? ==> KeyGives(t, before, nfc, Refused(r.code))
    ensures r.Read? && HasKey(before, r.value) ==> KeyGives(t, before, nfc, Refused("JSON_DUPLICATE_KEY"))
    ensures r.Read? && !HasKey(before, r.value) && (r.rest == [] || r.rest[0] != COLON) ==> KeyGives(t, before, nfc, Refused("JSON_OBJECT_COLON"))
    ensures r.Read? && !HasKey(before, r.value) && r.rest != [] && r.rest[0] == COLON ==> KeyGives(t, before, nfc, Read(r.value, r.rest[1..]))
  {
    assert Unlock(true);
  }

  // ----- Steps through arrays and records; `goal` is what the whole reading gives -----

  lemma ItemsFull(t: Text, spent: nat, depth: nat, before: seq<Json>, nfc: Text -> bool, goal: Scan)
    requires ItemsGive(t, spent, depth, before, nfc, goal) && |before| >= MAX_ARRAY_ITEMS
    ensures goal == Stop("JSON_ARRAY_BOUND")
  {
    assert Unlock(true);
  }

  lemma ItemsAfterValue(t: Text, spent: nat, depth: nat, before: seq<Json>, nfc: Text -> bool, goal: Scan, one: Scan)
    requires ItemsGive(t, spent, depth, before, nfc, goal) && |before| < MAX_ARRAY_ITEMS && ValueGives(t, spent, depth + 1, nfc, one)
    ensures one.Stop? ==> goal == one
    ensures one.Scan? && one.rest != [] && one.rest[0] == CLOSE_ARRAY ==> goal == Scan(Arr(before + [one.value]), one.rest[1..], one.spent)
    ensures one.Scan? && one.rest != [] && one.rest[0] == COMMA ==> ItemsGive(one.rest[1..], one.spent, depth, before + [one.value], nfc, goal)
    ensures one.Scan? && (one.rest == [] || (one.rest[0] != CLOSE_ARRAY && one.rest[0] != COMMA)) ==> goal == Stop("JSON_ARRAY")
  {
    assert Unlock(true);
  }

  lemma ArrayBegins(t: Text, spent: nat, depth: nat, nfc: Text -> bool) returns (goal: Scan)
    ensures ArrayGives(t, spent, depth, nfc, goal)
    ensures if t != [] && t[0] == CLOSE_ARRAY then goal == Scan(Arr([]), t[1..], spent) else ItemsGive(t, spent, depth, [], nfc, goal)
  {
    goal := ReadArray(t, spent, depth, nfc);
  }

  lemma FieldsFull(t: Text, spent: nat, depth: nat, before: seq<Field>, nfc: Text -> bool, goal: Scan)
    requires FieldsGive(t, spent, depth, before, nfc, goal) && |before| >= MAX_RECORD_FIELDS
    ensures goal == Stop("JSON_FIELD_BOUND")
  {
    assert Unlock(true);
  }

  lemma FieldsWithoutKey(t: Text, spent: nat, depth: nat, before: seq<Field>, nfc: Text -> bool, goal: Scan, code: string)
    requires FieldsGive(t, spent, depth, before, nfc, goal) && |before| < MAX_RECORD_FIELDS && KeyGives(t, before, nfc, Refused(code))
    ensures goal == Stop(code)
  {
    assert Unlock(true);
  }

  lemma FieldsAfterValue(t: Text, spent: nat, depth: nat, before: seq<Field>, nfc: Text -> bool, goal: Scan, key: Text, mid: Text, one: Scan)
    requires FieldsGive(t, spent, depth, before, nfc, goal) && |before| < MAX_RECORD_FIELDS
    requires KeyGives(t, before, nfc, Read(key, mid)) && ValueGives(mid, spent, depth + 1, nfc, one)
    ensures one.Stop? ==> goal == one
    ensures one.Scan? && one.rest != [] && one.rest[0] == CLOSE_OBJECT ==> goal == Scan(Obj(Put(before, Field(key, one.value))), one.rest[1..], one.spent)
    ensures one.Scan? && one.rest != [] && one.rest[0] == COMMA ==>
      FieldsGive(one.rest[1..], one.spent, depth, Put(before, Field(key, one.value)), nfc, goal)
    ensures one.Scan? && (one.rest == [] || (one.rest[0] != CLOSE_OBJECT && one.rest[0] != COMMA)) ==> goal == Stop("JSON_OBJECT")
  {
    assert Unlock(true);
  }

  lemma ObjectBegins(t: Text, spent: nat, depth: nat, nfc: Text -> bool) returns (goal: Scan)
    ensures ObjectGives(t, spent, depth, nfc, goal)
    ensures if t != [] && t[0] == CLOSE_OBJECT then goal == Scan(Obj([]), t[1..], spent) else FieldsGive(t, spent, depth, [], nfc, goal)
  {
    goal := ReadObject(t, spent, depth, nfc);
  }

  // ----- Which way a value is read -----

  lemma OutOfBounds(t: Text, spent: nat, depth: nat, nfc: Text -> bool)
    ensures depth > MAX_DEPTH ==> ValueGives(t, spent, depth, nfc, Stop("JSON_DEPTH_BOUND"))
    ensures depth <= MAX_DEPTH && spent + 1 > MAX_VALUES ==> ValueGives(t, spent, depth, nfc, Stop("JSON_VALUE_BOUND"))
  {}

  lemma BracketReads(t: Text, spent: nat, depth: nat, nfc: Text -> bool, r: Scan)
    requires depth <= MAX_DEPTH && spent + 1 <= MAX_VALUES && t != []
    ensures t[0] == OPEN_OBJECT && ObjectGives(t[1..], spent + 1, depth, nfc, r) ==> ValueGives(t, spent, depth, nfc, r)
    ensures t[0] == OPEN_ARRAY && ArrayGives(t[1..], spent + 1, depth, nfc, r) ==> ValueGives(t, spent, depth, nfc, r)
  {
    assert Unlock(true);
  }

  lemma QuoteReads(t: Text, spent: nat, depth: nat, nfc: Text -> bool, r: Read<Text>)
    requires depth <= MAX_DEPTH && spent + 1 <= MAX_VALUES && t != [] && t[0] == QUOTE && TextGives(t, nfc, r)
    ensures ValueGives(t, spent, depth, nfc, ScanOfString(r, spent + 1))
  {
    assert Unlock(true);
  }

  /** What a text is read as that starts with none of the marks. */
  ghost function Plain(t: Text, spent: nat): Scan {
    if StartsWith(t, TRUE_TEXT) then Scan(Bool(true), t[4..], spent)
    else if StartsWith(t, FALSE_TEXT) then Scan(Bool(false), t[5..], spent)
    else if StartsWith(t, NULL_TEXT) then Scan(Null, t[4..], spent)
    else ScanOfNumber(ReadNumber(t), spent)
  }

  lemma PlainReads(t: Text, spent: nat, depth: nat, nfc: Text -> bool)
    requires depth <= MAX_DEPTH && spent + 1 <= MAX_VALUES
    requires t != [] ==> t[0] != OPEN_OBJECT && t[0] != OPEN_ARRAY && t[0] != QUOTE
    ensures ValueGives(t, spent, depth, nfc, Plain(t, spent + 1))
  {}

  class Scanner {
    const source: Text
    const nfc: Text -> bool
    var index: nat
    var values: nat

    constructor (source: Text, nfc: Text -> bool)
      ensures this.source == source && this.nfc == nfc && index == 0 && values == 0
    {
      this.source := source;
      this.nfc := nfc;
      index, values := 0, 0;
    }

    /** The text from the index on. */
    ghost function Rest(): Text
      reads this
    {
      if index <= |source| then source[index..] else []
    }

    ghost function AsScan(r: Outcome<Json>): Scan
      reads this
    {
      match r
      case Done(v) => Scan(v, Rest(), values)
      case Refusal(code) => Stop(code)
    }

    ghost function AsRead<T>(r: Outcome<T>): Read<T>
      reads this
    {
      match r
      case Done(v) => Read(v, Rest())
      case Refusal(code) => Refused(code)
    }

    method Parse() returns (r: Outcome<Json>)
      requires index == 0 && values == 0
      modifies this
      ensures r == match CanonicalJson.Parse(source, nfc) case Parsed(v) => Done(v) case NotParsed(code) => Refusal(code)
    {
      assert Rest() == source;
      r := ParseValue(1);
      assert Unlock(true);
      if r.Done? && index != |source| { r := Refusal("JSON_TRAILING"); }
    }

    method ParseValue(depth: nat) returns (r: Outcome<Json>)
      requires index <= |source|
      modifies this
      ensures ValueGives(old(Rest()), old(values), depth, nfc, AsScan(r))
      ensures r.Done? ==> old(index) < index <= |source|
      decreases |source| - index, 2
    {
      ghost var t, spent := Rest(), values;
      OutOfBounds(t, spent, depth, nfc);
      if depth > MAX_DEPTH { return Refusal("JSON_DEPTH_BOUND"); }
      values := values + 1;
      if values > MAX_VALUES { return Refusal("JSON_VALUE_BOUND"); }
      assert index < |source| ==> t[1..] == source[index + 1..];
      if index < |source| && source[index] == OPEN_OBJECT {
        r := ParseObject(depth);
        BracketReads(t, spent, depth, nfc, AsScan(r));
        return;
      }
      if index < |source| && source[index] == OPEN_ARRAY {
        r := ParseArray(depth);
        BracketReads(t, spent, depth, nfc, AsScan(r));
        return;
      }
      if index < |source| && source[index] == QUOTE {
        var s := ParseString();
        QuoteReads(t, spent, depth, nfc, AsRead(s));
        return if s.Done? then Done(Str(s.value)) else Refusal(s.code);
      }
      PlainReads(t, spent, depth, nfc);
      r := ParsePlain();
    }

    method ParsePlain() returns (r: Outcome<Json>)
      requires index <= |source|
      modifies this`index
      ensures AsScan(r) == Plain(old(Rest()), values) && (r.Done? ==> old(index) < index <= |source|)
    {
      var taken := TakeLiteral(TRUE_TEXT);
      if taken { return Done(Bool(true)); }
      taken := TakeLiteral(FALSE_TEXT);
      if taken { return Done(Bool(false)); }
      taken := TakeLiteral(NULL_TEXT);
      if taken { return Done(Null); }
      var n := ParseNumber();
      return if n.Done? then Done(Num(n.value)) else Refusal(n.code);
    }

    method TakeLiteral(literal: Text) returns (taken: bool)
      requires index <= |source|
      modifies this`index
      ensures taken == StartsWith(old(Rest()), literal)
      ensures index == old(index) + if taken then |literal| else 0
      ensures index <= |source| && (taken ==> Rest() == old(Rest())[|literal|..])
    {
      taken := index + |literal| <= |source| && source[index..index + |literal|] == literal;
      ghost var t := source[index..];
      assert index + |literal| <= |source| ==> source[index..index + |literal|] == t[..|literal|] && source[index + |literal|..] == t[|literal|..];
      if taken { index := index + |literal|; }
    }

    method ParseString() returns (r: Outcome<Text>)
      requires index < |source| && source[index] == QUOTE
      modifies this`index
      ensures TextGives(old(Rest()), nfc, AsRead(r))
      ensures r.Done? ==> old(index) < index <= |source|
    {
      var start := index;
      ghost var t, body := source[start..], source[start + 1..];
      assert t[1..] == body;
      ghost var k;
      var stopped;
      stopped, k := ScanString();
      if stopped.Refusal? {
        StringStops(t, body, stopped.code, nfc);
        return Refusal(stopped.code);
      }
      QuoteEnds(t, body, k, nfc);
      assert body[k + 1..] == source[index..] && body[..k] == source[start + 1..index - 1];
      var read := Finished(source[start + 1..index - 1], source[index..], nfc);
      r := if read.Read? then Done(read.value) else Refusal(read.code);
      assert AsRead(r) == read;
    }

    /** Move past the closing quote, or refuse; `k` units were before the quote. */
    method ScanString() returns (r: Outcome<()>, ghost k: nat)
      requires index < |source|
      modifies this`index
      ensures r.Refusal? ==> Stops(source[old(index) + 1..], r.code)
      ensures r.Done? ==> index == old(index) + 2 + k <= |source| && source[index - 1] == QUOTE
      ensures r.Done? ==> ScannedTo(source[old(index) + 1..], k)
    {
      ghost var start := index;
      index := index + 1;
      ghost var body := source[start + 1..];
      k := 0;
      ScanBegins(body);
      while index < |source|
        invariant index == start + 1 + k <= |source| && ScannedTo(body, k)
      {
        var code := source[index];
        assert body[k] == code;
        if code == QUOTE {
          index := index + 1;
          return Done(()), k;
        }
        if code < 0x20 {
          ControlStops(body, k);
          return Refusal("JSON_STRING_CONTROL"), k;
        }
        if code == BACKSLASH {
          index := index + 1;
          assert index < |source| ==> source[index] == body[k + 1] && source[index + 1..] == body[k + 2..];
          if index < |source| && source[index] == LOWER_U && FourHex(source[index + 1..]) {
            FourGoesOn(body, k);
            index := index + 5;
            k := k + 6;
            continue;
          }
          if index == |source| || source[index] == LOWER_U || !IsShort(source[index]) {
            EscapeStops(body, k);
            return Refusal("JSON_ESCAPE"), k;
          }
          ShortGoesOn(body, k);
          k := k + 2;
        } else {
          RawGoesOn(body, k);
          k := k + 1;
        }
        index := index + 1;
      }
      EndStops(body, k);
      return Refusal("JSON_STRING_TRUNCATED"), k;
    }

    method ParseNumber() returns (r: Outcome<int>)
      requires index <= |source|
      modifies this`index
      ensures AsRead(r) == ReadNumber(old(Rest()))
      ensures r.Done? ==> old(index) < index <= |source|
    {
      var rest := source[index..];
      var sign := if rest != [] && rest[0] == MINUS then 1 else 0;
      var k := NaturalLength(rest[sign..]);
      if k == 0 { return Refusal("JSON_TOKEN"); }
      index := index + sign + k;
      assert source[index..] == rest[sign + k..];
      var n: int := DigitsValue(rest[sign..][..k]);
      if n > MAX_SAFE { return Refusal("JSON_INTEGER"); }
      return Done(if sign == 1 then -n else n);
    }

    method ParseArray(depth: nat) returns (r: Outcome<Json>)
      requires index < |source|
      modifies this
      ensures ArrayGives(source[old(index) + 1..], old(values), depth, nfc, AsScan(r))
      ensures r.Done? ==> old(index) < index <= |source|
      decreases |source| - index, 1
    {
      ghost var first := index;
      index := index + 1;
      ghost var goal := ArrayBegins(source[index..], values, depth, nfc);
      if index < |source| && source[index] == CLOSE_ARRAY {
        assert source[index..][1..] == source[index + 1..];
        index := index + 1;
        return Done(Arr([]));
      }
      var items: seq<Json> := [];
      while true
        invariant first < index <= |source| && ItemsGive(source[index..], values, depth, items, nfc, goal)
        decreases |source| - index
      {
        ghost var t, spent := source[index..], values;
        if |items| >= MAX_ARRAY_ITEMS {
          ItemsFull(t, spent, depth, items, nfc, goal);
          return Refusal("JSON_ARRAY_BOUND");
        }
        var one := ParseValue(depth + 1);
        ItemsAfterValue(t, spent, depth, items, nfc, goal, AsScan(one));
        if one.Refusal? { return one; }
        ghost var rest := source[index..];
        if index == |source| { return Refusal("JSON_ARRAY"); }
        var separator := source[index];
        index := index + 1;
        assert rest[1..] == source[index..];
        items := items + [one.value];
        if separator == CLOSE_ARRAY {
          r := Done(Arr(items));
          assert AsScan(r) == goal;
          return;
        }
        if separator != COMMA { return Refusal("JSON_ARRAY"); }
      }
    }

    method ParseObject(depth: nat) returns (r: Outcome<Json>)
      requires index < |source|
      modifies this
      ensures ObjectGives(source[old(index) + 1..], old(values), depth, nfc, AsScan(r))
      ensures r.Done? ==> old(index) < index <= |source|
      decreases |source| - index, 1
    {
      ghost var first := index;
      index := index + 1;
      ghost var goal := ObjectBegins(source[index..], values, depth, nfc);
      if index < |source| && source[index] == CLOSE_OBJECT {
        assert source[index..][1..] == source[index + 1..];
        index := index + 1;
        return Done(Obj([]));
      }
      var fields: seq<Field> := [];
      while true
        invariant first < index <= |source| && FieldsGive(source[index..], values, depth, fields, nfc, goal)
        decreases |source| - index
      {
        ghost var t, spent := source[index..], values;
        if |fields| >= MAX_RECORD_FIELDS {
          FieldsFull(t, spent, depth, fields, nfc, goal);
          return Refusal("JSON_FIELD_BOUND");
        }
        var key := ParseKey(fields);
        if key.Refusal? {
          FieldsWithoutKey(t, spent, depth, fields, nfc, goal, key.code);
          return Refusal(key.code);
        }
        ghost var mid := source[index..];
        var one := ParseValue(depth + 1);
        FieldsAfterValue(t, spent, depth, fields, nfc, goal, key.value, mid, AsScan(one));
        if one.Refusal? { return one; }
        ghost var rest := source[index..];
        if index == |source| { return Refusal("JSON_OBJECT"); }
        var separator := source[index];
        index := index + 1;
        assert rest[1..] == source[index..];
        fields := Put(fields, Field(key.value, one.value));
        if separator == CLOSE_OBJECT {
          r := Done(Obj(fields));
          assert AsScan(r) == goal;
          return;
        }
        if separator != COMMA { return Refusal("JSON_OBJECT"); }
      }
    }

    method ParseKey(fields: seq<Field>) returns (r: Outcome<Text>)
      requires index <= |source|
      modifies this`index
      ensures KeyGives(old(Rest()), fields, nfc, AsRead(r))
      ensures r.Done? ==> old(index) < index <= |source|
    {
      ghost var t := source[index..];
      if index == |source| || source[index] != QUOTE {
        KeyWithoutQuote(t, fields, nfc);
        return Refusal("JSON_OBJECT_KEY");
      }
      r := ParseString();
      KeyAfterText(t, fields, nfc, AsRead(r));
      if r.Refusal? { return; }
      if HasKey(fields, r.value) { return Refusal("JSON_DUPLICATE_KEY"); }
      ghost var rest := source[index..];
      if index == |source| || source[index] != COLON { return Refusal("JSON_OBJECT_COLON"); }
      index := index + 1;
      assert rest[1..] == source[index..];
    }
  }
}
