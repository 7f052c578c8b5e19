/** Blocking keys (entity_resolution/blocking.py:14-52): what a strategy groups records by. A record carries
    its normalised field values; a field whose value normalises to nothing is absent. */
module BlockingKeys {
  import opened Records
  import opened Results

  datatype BlockingRecord = BlockingRecord(id: RecordId, values: map<string, string>)

  datatype ReasonType =
    | CompanyCityBlock | EmailExactBlock | NameCityBlock | NameSurnameBlock
    | PhoneExactBlock | PhoneLast7Block | SurnameCompanyBlock

  datatype Strategy = Strategy(id: string, fields: seq<string>, reason: ReasonType)

  predicate HasAll(record: BlockingRecord, fields: seq<string>) {
    forall i :: 0 <= i < |fields| ==> fields[i] in record.values
  }

  function Values(record: BlockingRecord, fields: seq<string>): (parts: seq<string>)
    requires HasAll(record, fields)
    ensures |parts| == |fields|
    ensures forall i :: 0 <= i < |fields| ==> parts[i] == record.values[fields[i]]
  {
    seq(|fields|, i requires 0 <= i < |fields| => record.values[fields[i]])
  }

  /** `"|".join(parts)`. */
  function Join(parts: seq<string>): string {
    if |parts| == 0 then ""
    else if |parts| == 1 then parts[0]
    else Join(parts[..|parts| - 1]) + "|" + parts[|parts| - 1]
  }

  predicate IsDigit(c: char) {
    '0' <= c <= '9'
  }

  function DigitsOf(text: string): string {
    if text == "" then "" else
      (if IsDigit(text[0]) then [text[0]] else "") + DigitsOf(text[1..])
  }

  function PhoneLast7(record: BlockingRecord): Option<string> {
    if "phone" !in record.values then None else
      var digits := DigitsOf(record.values["phone"]);
      if |digits| < 7 then None else Some(digits[|digits| - 7..])
  }

  predicate IsPhoneLast7(strategy: Strategy) {
    strategy.id == "phone_last7" && strategy.fields == ["phone"]
  }

  function LongEnough(key: Option<string>, minLength: int): Option<string> {
    if key.Some? && minLength <= |key.value| then key else None
  }

  /** The key a strategy files a record under, if any. */
  function KeyOf(record: BlockingRecord, strategy: Strategy, minLength: int): Option<string> {
    LongEnough(
      if IsPhoneLast7(strategy) then PhoneLast7(record)
      else if HasAll(record, strategy.fields) then Some(Join(Values(record, strategy.fields)))
      else None, minLength)
  }

  /** `_build_blocking_key`: one loop over the fields, leaving at the first missing value. */
  method BuildBlockingKey(record: BlockingRecord, strategy: Strategy, minLength: int) returns (key: Option<string>)
    ensures key == KeyOf(record, strategy, minLength)
  {
    if strategy.id == "phone_last7" && strategy.fields == ["phone"] {
      key := PhoneLast7(record);
      if key.None? || |key.value| < minLength {
        return None;
      }
      return key;
    }
    var fields := strategy.fields;
    var parts := [];
    for n := 0 to |fields|
      invariant HasAll(record, fields[..n])
      invariant parts == Values(record, fields[..n])
    {
      if fields[n] !in record.values {
        assert !HasAll(record, fields);
        return None;
      }
      parts := parts + [record.values[fields[n]]];
    }
    assert fields[..|fields|] == fields;
    var joined := Join(parts);
    if |joined| < minLength {
      return None;
    }
    return Some(joined);
  }

  // --- When there is a key, and what sharing one says ---

  function TotalLength(parts: seq<string>): nat {
    if parts == [] then 0 else TotalLength(parts[..|parts| - 1]) + |parts[|parts| - 1]|
  }

  lemma {:induction false} JoinedLength(parts: seq<string>)
    requires parts != []
    ensures |Join(parts)| == TotalLength(parts) + |parts| - 1
    decreases |parts|
  {
    if |parts| > 1 {
      JoinedLength(parts[..|parts| - 1]);
    } else {
      assert TotalLength(parts[..0]) == 0;
    }
  }

  /** A strategy over named fields gives a key exactly when the record has them all and their values, with a bar between
      every two, are long enough. */
  lemma KeyExistsExactlyWhen(record: BlockingRecord, strategy: Strategy, minLength: int)
    requires (strategy.id != "phone_last7" || strategy.fields != ["phone"]) && strategy.fields != []
    ensures KeyOf(record, strategy, minLength).Some?
            <==> && HasAll(record, strategy.fields)
                 && minLength <= TotalLength(Values(record, strategy.fields)) + |strategy.fields| - 1
  {
    if HasAll(record, strategy.fields) {
      JoinedLength(Values(record, strategy.fields));
    }
  }

  function Bars(text: string): nat {
    if text == "" then 0 else (if text[0] == '|' then 1 else 0) + Bars(text[1..])
  }

  lemma {:induction false} BarsAppend(left: string, right: string)
    ensures Bars(left + right) == Bars(left) + Bars(right)
    decreases |left|
  {
    if left == "" {
      assert left + right == right;
    } else {
      BarsAppend(left[1..], right);
      assert (left + right)[1..] == left[1..] + right;
    }
  }

  /** A text that ends in a bar and a shorter tail splits there, and nowhere else with as many bars after. */
  lemma LastPartIsDetermined(left: string, last: string, left': string, last': string)
    requires left + "|" + last == left' + "|" + last'
    requires Bars(last) == Bars(last')
    ensures left == left' && last == last'
  {
    var whole := left + "|" + last;
    assert whole[|whole| - |last|..] == last && whole[|whole| - |last'|..] == last';
    if |last| < |last'| {
      var between := last'[..|last'| - |last| - 1];
      assert last' == between + "|" + last;
      BarsAppend(between + "|", last);
      BarsAppend(between, "|");
      assert false;
    } else if |last'| < |last| {
      var between := last[..|last| - |last'| - 1];
      assert last == between + "|" + last';
      BarsAppend(between + "|", last');
      BarsAppend(between, "|");
      assert false;
    }
    assert left == whole[..|whole| - |last| - 1] == left';
  }

  lemma {:induction false} JoinIsInjective(parts: seq<string>, parts': seq<string>)
    requires |parts| == |parts'|
    requires forall i :: 0 < i < |parts| ==> Bars(parts[i]) == Bars(parts'[i])
    requires Join(parts) == Join(parts')
    ensures parts == parts'
    decreases |parts|
  {
    if |parts| > 1 {
      var n := |parts| - 1;
      LastPartIsDetermined(Join(parts[..n]), parts[n], Join(parts'[..n]), parts'[n]);
      JoinIsInjective(parts[..n], parts'[..n]);
      assert parts == parts[..n] + [parts[n]];
      assert parts' == parts'[..n] + [parts'[n]];
    }
  }

  /** Both records hold as many bars as each other in every field after the first. */
  predicate BarsAgree(left: BlockingRecord, right: BlockingRecord, fields: seq<string>)
    requires HasAll(left, fields) && HasAll(right, fields)
  {
    forall i :: 0 < i < |fields| ==> Bars(left.values[fields[i]]) == Bars(right.values[fields[i]])
  }

  /** Two records filed under one key agree on every field of the strategy exactly when the values after the
      first hold equally many bars: the bar that joins the parts is not escaped. */
  lemma SharedKeyMeansSameFields(left: BlockingRecord, right: BlockingRecord, strategy: Strategy, minLength: int)
    requires !IsPhoneLast7(strategy)
    requires KeyOf(left, strategy, minLength).Some?
    requires KeyOf(left, strategy, minLength) == KeyOf(right, strategy, minLength)
    ensures HasAll(left, strategy.fields) && HasAll(right, strategy.fields)
    ensures Values(left, strategy.fields) == Values(right, strategy.fields)
            <==> BarsAgree(left, right, strategy.fields)
  {
    var parts, parts' := Values(left, strategy.fields), Values(right, strategy.fields);
    if BarsAgree(left, right, strategy.fields) {
      forall i | 0 < i < |parts|
        ensures Bars(parts[i]) == Bars(parts'[i])
      {
        assert Bars(left.values[strategy.fields[i]]) == Bars(right.values[strategy.fields[i]]);
      }
      JoinIsInjective(parts, parts');
    }
    if parts == parts' {
      forall i | 0 < i < |parts|
        ensures Bars(left.values[strategy.fields[i]]) == Bars(right.values[strategy.fields[i]])
      {
        assert parts[i] == parts'[i];
      }
    }
  }

  /** The collision itself: two people with different surnames and cities share a surname-and-city key. */
  lemma DifferentFieldsCanShareAKey()
    ensures
      var strategy := Strategy("surname_city", ["last_name", "city"], NameCityBlock);
      var left := BlockingRecord(0, map["last_name" := "a|b", "city" := "c"]);
      var right := BlockingRecord(1, map["last_name" := "a", "city" := "b|c"]);
      KeyOf(left, strategy, 2) == KeyOf(right, strategy, 2) == Some("a|b|c")
  {
    var strategy := Strategy("surname_city", ["last_name", "city"], NameCityBlock);
    var left := BlockingRecord(0, map["last_name" := "a|b", "city" := "c"]);
    var right := BlockingRecord(1, map["last_name" := "a", "city" := "b|c"]);
    var parts, parts' := Values(left, strategy.fields), Values(right, strategy.fields);
    assert parts == ["a|b", "c"] && parts' == ["a", "b|c"];
    assert parts[..1] == ["a|b"] && parts'[..1] == ["a"];
    assert Join(parts) == "a|b" + "|" + "c" == "a|b|c";
    assert Join(parts') == "a" + "|" + "b|c" == "a|b|c";
  }

  // --- Phone keys ---

  predicate AllDigits(text: string) {
    forall i :: 0 <= i < |text| ==> IsDigit(text[i])
  }

  /** The digits of a text are those of its front, then its last character if that is one. */
  lemma {:induction false} DigitsOneMore(text: string, c: char)
    ensures DigitsOf(text + [c]) == DigitsOf(text) + if IsDigit(c) then [c] else []
    decreases |text|
  {
    if text == "" {
      assert [c][1..] == "";
    } else {
      var head, last := if IsDigit(text[0]) then [text[0]] else "", if IsDigit(c) then [c] else "";
      DigitsOneMore(text[1..], c);
      calc {
        DigitsOf(text + [c]);
        { assert (text + [c])[1..] == text[1..] + [c]; }
        head + DigitsOf(text[1..] + [c]);
        head + (DigitsOf(text[1..]) + last);
        (head + DigitsOf(text[1..])) + last;
      }
    }
  }

  lemma {:induction false} DigitsAreKept(text: string)
    requires AllDigits(text)
    ensures DigitsOf(text) == text
    decreases |text|
  {
    if text != "" {
      DigitsAreKept(text[1..]);
    }
  }

  /** The last seven digits of a phone, whatever else it holds. */
  predicate EndsIn(phone: string, last7: string) {
    var digits := DigitsOf(phone);
    |last7| == 7 <= |digits| && forall i :: 0 <= i < 7 ==> last7[i] == digits[|digits| - 7 + i]
  }

  /** A phone has a last-seven key exactly when it holds at least seven digits, and the key is the last seven of them. */
  lemma PhoneKeyIsTheLastSeven(record: BlockingRecord)
    requires "phone" in record.values
    ensures PhoneLast7(record).Some? <==> 7 <= |DigitsOf(record.values["phone"])|
    ensures forall last7 :: PhoneLast7(record) == Some(last7) <==> EndsIn(record.values["phone"], last7)
  {
    var digits := DigitsOf(record.values["phone"]);
    forall last7
      ensures PhoneLast7(record) == Some(last7) <==> EndsIn(record.values["phone"], last7)
    {
      if EndsIn(record.values["phone"], last7) {
        assert last7 == digits[|digits| - 7..];
      }
    }
  }

  /** Two records with a phone share a last-seven key exactly when their last seven digits agree, whatever comes before
      them; a minimum length above seven leaves no key to share. */
  lemma SharedPhoneKeyExactlyWhen(left: BlockingRecord, right: BlockingRecord, strategy: Strategy, minLength: int)
    requires strategy.id == "phone_last7" && strategy.fields == ["phone"]
    requires "phone" in left.values && "phone" in right.values
    ensures KeyOf(left, strategy, minLength).Some? && KeyOf(left, strategy, minLength) == KeyOf(right, strategy, minLength)
            <==> && minLength <= 7
                 && exists last7 :: EndsIn(left.values["phone"], last7) && EndsIn(right.values["phone"], last7)
  {
    PhoneKeyIsTheLastSeven(left);
    PhoneKeyIsTheLastSeven(right);
    if PhoneLast7(left).Some? && PhoneLast7(left) == PhoneLast7(right) {
      var last7 := PhoneLast7(left).value;
      assert EndsIn(left.values["phone"], last7) && EndsIn(right.values["phone"], last7);
    }
  }

  /** Normalised phones are at least eight digits (entity_resolution/similarity.py:27-33), so two records that
      share an exact phone key also share a last-seven key. */
  lemma SamePhoneMeansSameLast7(
    left: BlockingRecord, right: BlockingRecord, exact: Strategy, last7: Strategy, minLength: int)
    requires exact.fields == ["phone"] && !IsPhoneLast7(exact) && IsPhoneLast7(last7) && minLength <= 7
    requires "phone" in left.values ==> AllDigits(left.values["phone"]) && 8 <= |left.values["phone"]|
    requires KeyOf(left, exact, minLength).Some?
    requires KeyOf(left, exact, minLength) == KeyOf(right, exact, minLength)
    ensures KeyOf(left, last7, minLength).Some?
    ensures KeyOf(left, last7, minLength) == KeyOf(right, last7, minLength)
  {
    assert exact.fields[0] == "phone";
    assert left.values["phone"] == Join(Values(left, exact.fields)) == Join(Values(right, exact.fields))
        == right.values["phone"];
    DigitsAreKept(left.values["phone"]);
  }
}
