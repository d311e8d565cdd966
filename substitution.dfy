/** The substitution passes of lib/csv-writer.js that rewrite field values after
    `transformRecord`: the fixed enum tables, the name table, and the i18n tokens.
    A record here is a JavaScript object, a map from property name to value. */
module Substitution {
  import opened Wrappers
  import opened Text
  import opened Json
  import opened NestedValue

  type Record = map<string, Value>

  /* ---------- applyEnumMappings ---------- */

  const ShipTypeField := "舰种"
  const GroupField := "类型"
  const NationField := "国家"

  const ShipTypes: map<string, string> := map[
    "Battleship" := "战列舰",
    "Destroyer" := "驱逐舰",
    "Cruiser" := "巡洋舰",
    "AirCarrier" := "航空母舰",
    "Submarine" := "潜艇"]

  const Groups: map<string, string> := map[
    "demoWithoutStats" := "测试",
    "demoWithStats" := "测试",
    "earlyAccess" := "抢先体验",
    "specialUnsellable" := "不可出售",
    "special" := "加值",
    "start" := "初始",
    "superShip" := "超战",
    "ultimate" := "特种",
    "upgradeableExclusive" := "全局研发",
    "upgradeableUltimate" := "全局特种",
    "upgradeable" := "研发"]

  const Nations: map<string, string> := map[
    "Commonwealth" := "英联邦",
    "Europe" := "欧洲",
    "France" := "法国",
    "Germany" := "德国",
    "Italy" := "意大利",
    "Spain" := "西班牙",
    "Japan" := "日本",
    "Netherlands" := "荷兰",
    "Russia" := "苏联",
    "United_Kingdom" := "英国",
    "USA" := "美国",
    "Pan_Asia" := "泛亚",
    "Pan_America" := "泛美洲"]

  /** Whether `table[record[field]]` finds a truthy entry; the property name is the
      value's `String()` text. */
  predicate Translatable(record: Record, field: string, table: map<string, string>, host: Host) {
    field in record && Truthy(record[field])
    && ToText(record[field], host) in table && table[ToText(record[field], host)] != ""
  }

  /** `if (result[field] && table[result[field]]) result[field] = table[result[field]]` */
  function Translate(record: Record, field: string, table: map<string, string>, host: Host): Record {
    if Translatable(record, field, table, host)
    then record[field := Str(table[ToText(record[field], host)])]
    else record
  }

  /** The three translations in program order, over any tables. */
  function EnumPass(record: Record, ships: map<string, string>, groups: map<string, string>,
                    nations: map<string, string>, host: Host): Record {
    Translate(Translate(Translate(record, ShipTypeField, ships, host), GroupField, groups, host),
              NationField, nations, host)
  }

  /** `applyEnumMappings(record)` */
  function ApplyEnumMappings(record: Record, host: Host): Record {
    EnumPass(record, ShipTypes, Groups, Nations, host)
  }

  /** Every key starts with an ASCII character. */
  predicate AsciiKeys(table: map<string, string>) {
    forall k :: k in table ==> k != [] && k[0] < '\U{80}'
  }

  /** Every translation starts with a character outside ASCII. */
  predicate WideValues(table: map<string, string>) {
    forall k :: k in table ==> table[k] != [] && table[k][0] >= '\U{80}'
  }

  predicate AsciiKeysWideValues(table: map<string, string>) {
    AsciiKeys(table) && WideValues(table)
  }

  /** No translation is itself translated again. */
  predicate ValuesAreNotKeys(table: map<string, string>) {
    forall k :: k in table ==> table[k] !in table
  }

  lemma WideValuesAreNotKeys(table: map<string, string>)
    requires AsciiKeysWideValues(table)
    ensures ValuesAreNotKeys(table)
  {
  }

  lemma ShipTypesShape() ensures AsciiKeysWideValues(ShipTypes) {
    ShipTypeKeys();
    ShipTypeValues();
  }

  lemma GroupsShape() ensures AsciiKeysWideValues(Groups) {
    GroupKeys();
    GroupValues();
  }

  lemma NationsShape() ensures AsciiKeysWideValues(Nations) {
    NationKeys();
    NationValues();
  }

  lemma ShipTypeKeys() ensures AsciiKeys(ShipTypes) { }
  lemma ShipTypeValues() ensures WideValues(ShipTypes) { }
  lemma GroupKeys() ensures AsciiKeys(Groups) { }
  lemma GroupValues() ensures WideValues(Groups) { }
  lemma NationKeys() ensures AsciiKeys(Nations) { }
  lemma NationValues() ensures WideValues(Nations) { }

  /** What the pass does to one column: looked up from the unmodified record's value when
      that value's text is a key of the column's table, else left as it was. */
  function EnumColumn(record: Record, field: string, table: map<string, string>, host: Host): Value
    requires field in record
  {
    if Translatable(record, field, table, host) then Str(table[ToText(record[field], host)]) else record[field]
  }

  /** `applyEnumMappings` keeps every key, touches no field but `舰种`, `类型` and `国家`,
      and decides each of those from its own original value. */
  lemma EnumPassFrame(record: Record, ships: map<string, string>, groups: map<string, string>,
                      nations: map<string, string>, host: Host)
    ensures EnumPass(record, ships, groups, nations, host).Keys == record.Keys
    ensures forall k :: k in record && k != ShipTypeField && k != GroupField && k != NationField ==>
      EnumPass(record, ships, groups, nations, host)[k] == record[k]
    ensures ShipTypeField in record ==>
      EnumPass(record, ships, groups, nations, host)[ShipTypeField] == EnumColumn(record, ShipTypeField, ships, host)
    ensures GroupField in record ==>
      EnumPass(record, ships, groups, nations, host)[GroupField] == EnumColumn(record, GroupField, groups, host)
    ensures NationField in record ==>
      EnumPass(record, ships, groups, nations, host)[NationField] == EnumColumn(record, NationField, nations, host)
  {
  }

  /** A column the pass has already decided is decided the same way again. */
  lemma EnumColumnStable(record: Record, next: Record, field: string, table: map<string, string>, host: Host)
    requires ValuesAreNotKeys(table)
    requires field in record && field in next
    requires next[field] == EnumColumn(record, field, table, host)
    ensures EnumColumn(next, field, table, host) == next[field]
  {
  }

  /** The pass is idempotent when no table maps to one of its own keys. */
  lemma EnumPassIdempotent(record: Record, ships: map<string, string>, groups: map<string, string>,
                           nations: map<string, string>, host: Host)
    requires ValuesAreNotKeys(ships) && ValuesAreNotKeys(groups) && ValuesAreNotKeys(nations)
    ensures EnumPass(EnumPass(record, ships, groups, nations, host), ships, groups, nations, host)
         == EnumPass(record, ships, groups, nations, host)
  {
    var once := EnumPass(record, ships, groups, nations, host);
    var twice := EnumPass(once, ships, groups, nations, host);
    EnumPassFrame(record, ships, groups, nations, host);
    EnumPassFrame(once, ships, groups, nations, host);
    if ShipTypeField in record {
      EnumColumnStable(record, once, ShipTypeField, ships, host);
    }
    if GroupField in record {
      EnumColumnStable(record, once, GroupField, groups, host);
    }
    if NationField in record {
      EnumColumnStable(record, once, NationField, nations, host);
    }
    forall k | k in once ensures twice[k] == once[k] {
    }
  }

  /** `applyEnumMappings` is idempotent: none of its three tables maps to one of its own
      keys. */
  lemma EnumMappingsIdempotent(record: Record, host: Host)
    ensures ApplyEnumMappings(ApplyEnumMappings(record, host), host) == ApplyEnumMappings(record, host)
  {
    ShipTypesShape(); GroupsShape(); NationsShape();
    WideValuesAreNotKeys(ShipTypes); WideValuesAreNotKeys(Groups); WideValuesAreNotKeys(Nations);
    EnumPassIdempotent(record, ShipTypes, Groups, Nations, host);
  }

  /** A `Battleship` ship type becomes `战列舰`. */
  lemma BattleshipTranslated(record: Record, host: Host)
    requires ShipTypeField in record && record[ShipTypeField] == Str("Battleship")
    ensures ApplyEnumMappings(record, host)[ShipTypeField] == Str("战列舰")
  {
    EnumPassFrame(record, ShipTypes, Groups, Nations, host);
    assert ToText(record[ShipTypeField], host) == "Battleship";
  }

  /* ---------- replaceNames ---------- */

  /** `nameCache[value.toLowerCase()]` */
  function NameEntry(s: string, names: map<string, Value>): Value {
    Get(Obj(names), Lower(s))
  }

  /** Whether a string field is replaced: it is non-empty and its entry and the entry's
      `zh` are truthy. */
  predicate HasName(s: string, names: map<string, Value>) {
    s != [] && Truthy(NameEntry(s, names)) && Truthy(Get(NameEntry(s, names), "zh"))
  }

  /** The value `replaceNames` leaves in a field that held `v`. */
  function NameFor(v: Value, names: map<string, Value>): Value {
    if v.Str? && HasName(v.s, names) then Get(NameEntry(v.s, names), "zh") else v
  }

  /** One record after `replaceNames`. */
  function Renamed(record: Record, names: map<string, Value>): Record {
    map k | k in record :: NameFor(record[k], names)
  }

  /** The loop over `Object.entries(newRecord)`: each field is rewritten from the value it
      held when the loop started. */
  method RenameRecord(record: Record, names: map<string, Value>) returns (newRecord: Record)
    ensures newRecord == Renamed(record, names)
  {
    ghost var target := Renamed(record, names);
    newRecord := record;
    var pending := record.Keys;
    while pending != {}
      invariant pending <= record.Keys
      invariant newRecord.Keys == record.Keys == target.Keys
      invariant forall k :: k in record ==> newRecord[k] == if k in pending then record[k] else target[k]
      decreases |pending|
    {
      var key :| key in pending;
      var value := newRecord[key];
      assert value == record[key];
      if Truthy(value) && value.Str? && |value.s| > 0 {
        var entry := NameEntry(value.s, names);
        if Truthy(entry) && Truthy(Get(entry, "zh")) {
          newRecord := newRecord[key := Get(entry, "zh")];
        }
      }
      assert newRecord[key] == NameFor(value, names) == target[key];
      pending := pending - {key};
    }
  }

  /** `replaceNames(records)` */
  method ReplaceNames(records: seq<Record>, names: map<string, Value>) returns (out: seq<Record>)
    ensures out == seq(|records|, i requires 0 <= i < |records| => Renamed(records[i], names))
  {
    out := [];
    for i := 0 to |records|
      invariant out == seq(i, j requires 0 <= j < i => Renamed(records[j], names))
    {
      var newRecord := RenameRecord(records[i], names);
      out := out + [newRecord];
    }
  }

  /** A non-empty string whose lower-cased text has a truthy entry with a truthy `zh` is
      replaced by that `zh`; a field is only ever replaced that way, and a value that is
      not a non-empty string is kept. */
  lemma NameForSpec(v: Value, names: map<string, Value>)
    ensures !(v.Str? && v.s != []) ==> NameFor(v, names) == v
    ensures (v.Str? && v.s != [] && Lower(v.s) in names && Truthy(names[Lower(v.s)])
             && Truthy(Get(names[Lower(v.s)], "zh")))
      ==> NameFor(v, names) == Get(names[Lower(v.s)], "zh")
    ensures NameFor(v, names) != v ==>
      v.Str? && Lower(v.s) in names && Truthy(names[Lower(v.s)])
      && Truthy(Get(names[Lower(v.s)], "zh")) && NameFor(v, names) == Get(names[Lower(v.s)], "zh")
  {
  }

  /** A record naming `Yamato` gets the `zh` of the `yamato` entry. */
  lemma YamatoRenamed()
    ensures Renamed(map["name" := Str("Yamato")], map["yamato" := Obj(map["zh" := Str("大和")])])
         == map["name" := Str("大和")]
  {
    var names := map["yamato" := Obj(map["zh" := Str("大和")])];
    assert Lower("Yamato") == "yamato";
    NameForSpec(Str("Yamato"), names);
  }

  /** The lookup ignores ASCII case: a string and its lower-cased form find the same
      entry, so they are replaced alike. */
  lemma NameIgnoresCase(s: string, names: map<string, Value>)
    ensures HasName(Lower(s), names) <==> HasName(s, names)
    ensures NameEntry(Lower(s), names) == NameEntry(s, names)
  {
    LowerIdempotent(s);
  }

  /** `replaceNames` keeps each record's keys, and each field is decided from its own
      value alone: changing one field of the input changes only that field of the output. */
  lemma RenamedIsFieldwise(record: Record, names: map<string, Value>, key: string, v: Value)
    ensures Renamed(record, names).Keys == record.Keys
    ensures Renamed(record[key := v], names) == Renamed(record, names)[key := NameFor(v, names)]
  {
  }

  /* ---------- replaceI18n ---------- */

  /** Every field holding a string that contains `token` overwritten with `text`
      (`value === key` implies `value.includes(key)` for a string `key`). */
  function Overwritten(record: Record, token: string, text: Value): Record {
    map k | k in record :: if record[k].Str? && Contains(record[k].s, token) then text else record[k]
  }

  /** One token of the list: applied only when `i18nCache[token.toLowerCase()]` is
      truthy. */
  function TokenReplaced(record: Record, token: string, i18n: map<string, Value>): Record {
    var text := Get(Obj(i18n), Lower(token));
    if Truthy(text) then Overwritten(record, token, text) else record
  }

  /** The tokens in array order, each seeing the overwrites of those before it;
      `toLowerCase` on a token that is not a string throws. */
  function TokensApplied(record: Record, tokens: seq<Value>, i18n: map<string, Value>): Completion<Record>
    decreases |tokens|
  {
    if tokens == [] then Done(record)
    else if !tokens[0].Str? then Threw
    else TokensApplied(TokenReplaced(record, tokens[0].s, i18n), tokens[1..], i18n)
  }

  /** One record: the token list is read from the record at `path` with only its first
      "." removed; anything but a non-empty array leaves the record as it is. */
  function I18nApplied(record: Record, path: string, i18n: map<string, Value>): Completion<Record> {
    var tokens := Resolve(Obj(record), RemoveFirst(path, '.'));
    if tokens.Arr? && |tokens.elems| > 0 then TokensApplied(record, tokens.elems, i18n) else Done(record)
  }

  /** `replaceI18n(records, mapping)`: a falsy `mapping.i18nkey` returns the records; a
      path that is not a string throws (`replace` is not a function) as soon as there is a
      record; otherwise the first record that throws makes the whole call throw. */
  function I18nReplaced(records: seq<Record>, mapping: seq<(string, Value)>, i18n: map<string, Value>)
    : Completion<seq<Record>>
  {
    var path := Lookup(mapping, "i18nkey");
    if !Truthy(path) then Done(records)
    else if records == [] then Done([])
    else if !path.Str? then Threw
    else if exists i :: 0 <= i < |records| && I18nApplied(records[i], path.s, i18n).Threw? then Threw
    else Done(seq(|records|, i requires 0 <= i < |records| => I18nApplied(records[i], path.s, i18n).value))
  }

  /** The inner loop over `Object.entries(newRecord)` for one token. */
  method OverwriteMatching(record: Record, token: string, text: Value) returns (newRecord: Record)
    ensures newRecord == Overwritten(record, token, text)
  {
    ghost var target := Overwritten(record, token, text);
    newRecord := record;
    var pending := record.Keys;
    while pending != {}
      invariant pending <= record.Keys
      invariant newRecord.Keys == record.Keys == target.Keys
      invariant forall k :: k in record ==> newRecord[k] == if k in pending then record[k] else target[k]
      decreases |pending|
    {
      var field :| field in pending;
      var value := newRecord[field];
      assert value == record[field];
      if value == Str(token) || (value.Str? && Contains(value.s, token)) {
        OverwrittenField(record, token, text, field, value);
        newRecord := newRecord[field := text];
      } else {
        assert target[field] == value;
      }
      pending := pending - {field};
    }
  }

  /** A string field containing the token is overwritten. */
  lemma OverwrittenField(record: Record, token: string, text: Value, field: string, value: Value)
    requires field in record && record[field] == value
    requires value == Str(token) || (value.Str? && Contains(value.s, token))
    ensures Overwritten(record, token, text)[field] == text
  {
    if value == Str(token) {
      ContainsItself(token);
    }
  }

  /** The body of the `records.map` callback. */
  method ReplaceRecordI18n(record: Record, path: string, i18n: map<string, Value>) returns (c: Completion<Record>)
    ensures c == I18nApplied(record, path, i18n)
  {
    var newRecord := record;
    var i18nKey := GetNestedValue(Obj(record), RemoveFirst(path, '.'));
    if Truthy(i18nKey) && i18nKey.Arr? && |i18nKey.elems| > 0 {
      var tokens := i18nKey.elems;
      var i := 0;
      while i < |tokens|
        invariant 0 <= i <= |tokens|
        invariant TokensApplied(newRecord, tokens[i..], i18n) == TokensApplied(record, tokens, i18n)
      {
        var key := tokens[i];
        if !key.Str? {
          return Threw;
        }
        var text := Get(Obj(i18n), Lower(key.s));
        if Truthy(text) {
          newRecord := OverwriteMatching(newRecord, key.s, text);
        }
        assert tokens[i..][1..] == tokens[i + 1..];
        i := i + 1;
      }
    }
    return Done(newRecord);
  }

  /** `replaceI18n(records, mapping)` */
  method ReplaceI18n(records: seq<Record>, mapping: seq<(string, Value)>, i18n: map<string, Value>)
    returns (c: Completion<seq<Record>>)
    ensures c == I18nReplaced(records, mapping, i18n)
  {
    var i18nKeyPath := Lookup(mapping, "i18nkey");
    if !Truthy(i18nKeyPath) {
      return Done(records);
    }
    var out: seq<Record> := [];
    for i := 0 to |records|
      invariant i18nKeyPath.Str? || i == 0
      invariant forall j :: 0 <= j < i ==> I18nApplied(records[j], i18nKeyPath.s, i18n).Done?
      invariant out == seq(i, j requires 0 <= j < i => I18nApplied(records[j], i18nKeyPath.s, i18n).value)
    {
      if !i18nKeyPath.Str? {
        return Threw;
      }
      var r := ReplaceRecordI18n(records[i], i18nKeyPath.s, i18n);
      if r.Threw? {
        OneThrows(records, mapping, i18n, i);
        return Threw;
      }
      out := out + [r.value];
    }
    if records == [] {
      assert out == [];
    } else {
      NoneThrows(records, mapping, i18n);
    }
    return Done(out);
  }

  /** A record whose tokens throw makes the whole call throw. */
  lemma OneThrows(records: seq<Record>, mapping: seq<(string, Value)>, i18n: map<string, Value>, i: nat)
    requires Truthy(Lookup(mapping, "i18nkey")) && Lookup(mapping, "i18nkey").Str?
    requires i < |records| && I18nApplied(records[i], Lookup(mapping, "i18nkey").s, i18n).Threw?
    ensures I18nReplaced(records, mapping, i18n) == Threw
  {
  }

  /** When no record throws, the call returns every record with its tokens applied. */
  lemma NoneThrows(records: seq<Record>, mapping: seq<(string, Value)>, i18n: map<string, Value>)
    requires Truthy(Lookup(mapping, "i18nkey")) && Lookup(mapping, "i18nkey").Str? && records != []
    requires forall j :: 0 <= j < |records| ==> I18nApplied(records[j], Lookup(mapping, "i18nkey").s, i18n).Done?
    ensures I18nReplaced(records, mapping, i18n)
      == Done(seq(|records|, j requires 0 <= j < |records| => I18nApplied(records[j], Lookup(mapping, "i18nkey").s, i18n).value))
  {
  }

  /** The token list throws exactly when one of its tokens is not a string. */
  lemma {:induction false} TokensThrowIff(record: Record, tokens: seq<Value>, i18n: map<string, Value>)
    ensures TokensApplied(record, tokens, i18n).Threw? <==> exists i :: 0 <= i < |tokens| && !tokens[i].Str?
    decreases |tokens|
  {
    if tokens != [] && tokens[0].Str? {
      TokensThrowIff(TokenReplaced(record, tokens[0].s, i18n), tokens[1..], i18n);
      if exists i :: 0 <= i < |tokens| && !tokens[i].Str? {
        var i :| 0 <= i < |tokens| && !tokens[i].Str?;
        assert !tokens[1..][i - 1].Str?;
      }
    }
  }

  /** A field only ever ends up holding its original value or one of the i18n texts. */
  predicate FromI18n(before: Record, after: Record, i18n: map<string, Value>) {
    after.Keys == before.Keys
    && forall k :: k in after ==> after[k] == before[k] || exists t :: t in i18n && after[k] == i18n[t]
  }

  /** Applying tokens keeps the record's keys and writes only i18n texts. */
  lemma {:induction false} TokensFromI18n(record: Record, tokens: seq<Value>, i18n: map<string, Value>)
    requires TokensApplied(record, tokens, i18n).Done?
    ensures FromI18n(record, TokensApplied(record, tokens, i18n).value, i18n)
    decreases |tokens|
  {
    if tokens != [] {
      var next := TokenReplaced(record, tokens[0].s, i18n);
      TokensFromI18n(next, tokens[1..], i18n);
      var out := TokensApplied(record, tokens, i18n).value;
      forall k | k in out
        ensures out[k] == record[k] || exists t :: t in i18n && out[k] == i18n[t]
      {
        if next[k] != record[k] {
          assert next[k] == i18n[Lower(tokens[0].s)];
        }
      }
    }
  }

  /** Tokens are applied in order: the list `a + b` is `a`, then `b` on what `a` left. */
  lemma {:induction false} TokensCompose(record: Record, a: seq<Value>, b: seq<Value>, i18n: map<string, Value>)
    ensures TokensApplied(record, a + b, i18n)
         == match TokensApplied(record, a, i18n)
            case Threw => Threw
            case Done(mid) => TokensApplied(mid, b, i18n)
    decreases |a|
  {
    if a != [] {
      assert (a + b)[1..] == a[1..] + b;
      if a[0].Str? {
        TokensCompose(TokenReplaced(record, a[0].s, i18n), a[1..], b, i18n);
      }
    } else {
      assert a + b == b;
    }
  }

  /** A successful `replaceI18n` returns one record per input record, in order, each with
      the same keys and holding only original values or i18n texts; a falsy `i18nkey`
      returns the input itself. */
  lemma I18nReplacedShape(records: seq<Record>, mapping: seq<(string, Value)>, i18n: map<string, Value>)
    ensures !Truthy(Lookup(mapping, "i18nkey")) ==> I18nReplaced(records, mapping, i18n) == Done(records)
    ensures I18nReplaced(records, mapping, i18n).Done? ==>
      var out := I18nReplaced(records, mapping, i18n).value;
      |out| == |records| && forall i :: 0 <= i < |records| ==> FromI18n(records[i], out[i], i18n)
  {
    var path := Lookup(mapping, "i18nkey");
    if Truthy(path) && records != [] && path.Str? {
      forall i | 0 <= i < |records| && I18nApplied(records[i], path.s, i18n).Done?
        ensures FromI18n(records[i], I18nApplied(records[i], path.s, i18n).value, i18n)
      {
        var tokens := Resolve(Obj(records[i]), RemoveFirst(path.s, '.'));
        if tokens.Arr? && |tokens.elems| > 0 {
          TokensFromI18n(records[i], tokens.elems, i18n);
        }
      }
    }
  }

  /** A later token sees the text an earlier token wrote: when the first token's text
      contains the second token, a field the first token matched ends up holding the
      second token's text. */
  lemma LaterTokenSeesEarlierText(record: Record, field: string, first: string, second: string,
                                  i18n: map<string, Value>)
    requires field in record && record[field].Str? && Contains(record[field].s, first)
    requires Truthy(Get(Obj(i18n), Lower(first))) && Get(Obj(i18n), Lower(first)).Str?
    requires Contains(Get(Obj(i18n), Lower(first)).s, second)
    requires Truthy(Get(Obj(i18n), Lower(second)))
    ensures TokensApplied(record, [Str(first), Str(second)], i18n) == Done(
      TokenReplaced(TokenReplaced(record, first, i18n), second, i18n))
    ensures TokensApplied(record, [Str(first), Str(second)], i18n).value[field] == Get(Obj(i18n), Lower(second))
  {
    var tokens := [Str(first), Str(second)];
    var mid := TokenReplaced(record, first, i18n);
    assert tokens[1..] == [Str(second)];
    assert [Str(second)][1..] == [];
    calc {
      TokensApplied(record, tokens, i18n);
      TokensApplied(mid, [Str(second)], i18n);
      TokensApplied(TokenReplaced(mid, second, i18n), [], i18n);
    }
    assert mid[field] == Get(Obj(i18n), Lower(first));
  }
}
