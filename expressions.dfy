/** `transformRecord` (lib/csv-writer.js): each mapping entry `column → expression` is
    evaluated against one raw record. Three expression forms are recognised, in this
    order: a parenthesised `+` concatenation, a `|` form that looks for a quoted `"(…)"`
    group, and a plain path whose first character is dropped. */
module Expressions {
  import opened Wrappers
  import opened Text
  import opened Json
  import opened NestedValue

  /* ---------- the two regular expressions ---------- */

  /** A match of `open [^)]+ close` starting at `k`, where `close` starts with ")":
      the first ")" after `open` is at `j`, at least one character after `open`, and
      `close` is found there. */
  predicate GroupAt(s: string, open: string, close: string, k: int, j: int) {
    && 0 <= k && k + |open| < j && j + |close| <= |s|
    && s[k..k + |open|] == open
    && s[j..j + |close|] == close
    && (forall m :: k + |open| <= m < j ==> s[m] != ')')
  }

  ghost predicate NoGroupAt(s: string, open: string, close: string, k: int) {
    forall j :: !GroupAt(s, open, close, k, j)
  }

  /** The first capture of `open([^)]+)close`, searching from position `from`. */
  function FindGroup(s: string, open: string, close: string, from: nat): Option<string>
    decreases |s| - from
  {
    if from + |open| >= |s| then None
    else
      var start := from + |open|;
      if MatchesHere(s, open, close, from)
      then Some(s[start..start + IndexOf(s[start..], ')')])
      else FindGroup(s, open, close, from + 1)
  }

  /** The test `FindGroup` makes at one position. */
  predicate MatchesHere(s: string, open: string, close: string, from: nat) {
    var start := from + |open|;
    start < |s| &&
    var idx := IndexOf(s[start..], ')');
    s[from..start] == open && 0 < idx && start + idx + |close| <= |s|
    && s[start + idx..start + idx + |close|] == close
  }

  lemma MatchHereIsGroup(s: string, open: string, close: string, from: nat)
    requires MatchesHere(s, open, close, from)
    ensures GroupAt(s, open, close, from, from + |open| + IndexOf(s[from + |open|..], ')'))
  {
    var start := from + |open|;
    var idx := IndexOf(s[start..], ')');
    forall m | start <= m < start + idx ensures s[m] != ')' {
      assert s[m] == s[start..][..idx][m - start];
    }
  }

  lemma NoMatchHereNoGroup(s: string, open: string, close: string, from: nat)
    requires close != [] && close[0] == ')'
    requires !MatchesHere(s, open, close, from)
    ensures NoGroupAt(s, open, close, from)
  {
  }

  /** `g` is the capture of the leftmost match starting at `from` or later. */
  ghost predicate FirstGroup(s: string, open: string, close: string, from: nat, g: string) {
    exists k, j :: from <= k && GroupAt(s, open, close, k, j) && g == s[k + |open|..j]
      && forall k' :: from <= k' < k ==> NoGroupAt(s, open, close, k')
  }

  /** No match starts at `from` or later. */
  ghost predicate NoGroupFrom(s: string, open: string, close: string, from: nat) {
    forall k :: from <= k ==> NoGroupAt(s, open, close, k)
  }

  /** `FindGroup` is leftmost-match semantics of the regular expression: it returns the
      capture of the match that starts first, and nothing when no position matches. */
  lemma {:induction false} FindGroupSpec(s: string, open: string, close: string, from: nat)
    requires close != [] && close[0] == ')'
    ensures match FindGroup(s, open, close, from)
      case Some(g) => FirstGroup(s, open, close, from, g)
      case None => NoGroupFrom(s, open, close, from)
    decreases |s| - from
  {
    if from + |open| >= |s| {
      assert NoGroupFrom(s, open, close, from) by {
        forall k | from <= k ensures NoGroupAt(s, open, close, k) {
        }
      }
    } else if MatchesHere(s, open, close, from) {
      var j := from + |open| + IndexOf(s[from + |open|..], ')');
      assert GroupAt(s, open, close, from, j) by {
        MatchHereIsGroup(s, open, close, from);
      }
      FoundHere(s, open, close, from, s[from + |open|..j]);
      assert FirstGroup(s, open, close, from, s[from + |open|..j]);
    } else {
      assert NoGroupAt(s, open, close, from) by {
        NoMatchHereNoGroup(s, open, close, from);
      }
      assert FindGroup(s, open, close, from) == FindGroup(s, open, close, from + 1);
      FindGroupSpec(s, open, close, from + 1);
      match FindGroup(s, open, close, from + 1)
      case Some(g) => FirstGroupBack(s, open, close, from, g);
      case None => NoGroupBack(s, open, close, from);
    }
  }

  lemma FirstGroupBack(s: string, open: string, close: string, from: nat, g: string)
    requires NoGroupAt(s, open, close, from) && FirstGroup(s, open, close, from + 1, g)
    ensures FirstGroup(s, open, close, from, g)
  {
    var k, j :| from + 1 <= k && GroupAt(s, open, close, k, j) && g == s[k + |open|..j]
      && forall k' :: from + 1 <= k' < k ==> NoGroupAt(s, open, close, k');
    assert forall k' :: from <= k' < k ==> NoGroupAt(s, open, close, k');
  }

  lemma NoGroupBack(s: string, open: string, close: string, from: nat)
    requires NoGroupAt(s, open, close, from) && NoGroupFrom(s, open, close, from + 1)
    ensures NoGroupFrom(s, open, close, from)
  {
  }

  /** `jqPath.match(/\(([^)]+)\)/)`, capture 1. */
  function ParenGroup(s: string): Option<string> {
    FindGroup(s, "(", ")", 0)
  }

  /** `jqPath.match(/"\(([^)]+)\)"/)`, capture 1. */
  function QuotedGroup(s: string): Option<string> {
    FindGroup(s, "\"(", ")\"", 0)
  }

  /* ---------- the concatenation form ---------- */

  predicate IsDot(c: char) { c == '.' }

  predicate IsQuote(c: char) { c == '"' }

  predicate IsDotOrSpace(c: char) { c == '.' || IsSpace(c) }

  /** `expr.split('+').map(p => p.trim())` */
  function TrimAll(pieces: seq<string>): (r: seq<string>)
    ensures |r| == |pieces|
  {
    seq(|pieces|, i requires 0 <= i < |pieces| => Trim(pieces[i]))
  }

  /** `part.replace(/\./g, '').replace(/\s/g, '')` */
  function CleanPart(part: string): string {
    Remove(Remove(part, IsDot), IsSpace)
  }

  /** What one part adds to the concatenation: the text of its value, or "" for null
      and undefined. */
  function PartText(record: Value, part: string, host: Host): string {
    var v := Resolve(record, CleanPart(part));
    if IsNullish(v) then "" else ToText(v, host)
  }

  /** The parts' texts concatenated left to right. */
  function ConcatText(record: Value, parts: seq<string>, host: Host): string {
    Concat(PartTexts(record, parts, host))
  }

  /** Each part's text, in order. */
  function PartTexts(record: Value, parts: seq<string>, host: Host): (r: seq<string>)
    ensures |r| == |parts|
  {
    seq(|parts|, i requires 0 <= i < |parts| => PartText(record, parts[i], host))
  }

  /** The loop that accumulates `value += String(val)` over the parts. */
  method Concatenate(record: Value, parts: seq<string>, host: Host) returns (value: string)
    ensures value == ConcatText(record, parts, host)
  {
    ghost var texts := PartTexts(record, parts, host);
    value := "";
    for i := 0 to |parts|
      invariant value == Concat(texts[..i])
    {
      ghost var before := value;
      var cleanPart := Remove(parts[i], IsDot);
      var trimmedPart := Remove(cleanPart, IsSpace);
      var val := GetNestedValue(record, trimmedPart);
      if !IsNullish(val) {
        value := value + ToText(val, host);
      }
      assert value == before + texts[i];
      assert value == Concat(texts[..i + 1]) by {
        assert texts[..i + 1] == texts[..i] + [texts[i]];
        ConcatSnoc(texts[..i], texts[i]);
      }
    }
    assert texts[..|parts|] == texts;
  }

  /* ---------- one expression ---------- */

  /** `jqPath.slice(1)` */
  function DropFirst(s: string): string {
    if s == [] then [] else s[1..]
  }

  predicate IsConcatShaped(s: string) {
    s != [] && s[0] == '(' && s[|s| - 1] == ')'
  }

  /** The value `transformRecord` stores for one column, or None when it leaves the
      column unset. A mapping value that is not a string makes `startsWith` throw; the
      `catch` stores null. */
  function EvalExpression(record: Value, expr: Value, host: Host): Option<Value> {
    if !expr.Str? then Some(Null)
    else
      var s := expr.s;
      if IsConcatShaped(s) then
        match ParenGroup(s)
        case None => None
        case Some(inner) => Some(Str(ConcatText(record, TrimAll(Split(inner, '+')), host)))
      else if '|' in s then
        match QuotedGroup(s)
        case Some(field) =>
          var v := Resolve(record, Remove(field, IsQuote));
          Some(if v.Arr? then Str(JoinElements(v.elems, "|", host)) else v)
        case None => Some(Resolve(record, DropFirst(s)))
      else Some(Resolve(record, DropFirst(s)))
  }

  /* ---------- one record ---------- */

  /** The output keys of a mapping in declaration order, without `i18nkey`. */
  function Columns(mapping: seq<(string, Value)>): (r: seq<string>)
    ensures "i18nkey" !in r
    ensures forall i :: 0 <= i < |mapping| && mapping[i].0 != "i18nkey" ==> mapping[i].0 in r
    ensures forall c :: c in r ==> exists i :: 0 <= i < |mapping| && mapping[i].0 == c
    decreases |mapping|
  {
    if mapping == [] then []
    else
      var last := mapping[|mapping| - 1];
      var prev := Columns(mapping[..|mapping| - 1]);
      assert forall i :: 0 <= i < |mapping| - 1 ==> mapping[..|mapping| - 1][i] == mapping[i];
      if last.0 == "i18nkey" then prev else prev + [last.0]
  }

  /** Each mapping entry with what it stores: None for `i18nkey` and for an unset column. */
  function Evaluated(record: Value, mapping: seq<(string, Value)>, host: Host): (r: seq<(string, Option<Value>)>)
    ensures |r| == |mapping|
  {
    seq(|mapping|, i requires 0 <= i < |mapping| =>
      (mapping[i].0, if mapping[i].0 == "i18nkey" then None else EvalExpression(record, mapping[i].1, host)))
  }

  /** The object built by storing each present value under its key, in order. */
  function Assemble(cols: seq<(string, Option<Value>)>): map<string, Value>
    decreases |cols|
  {
    if cols == [] then map[]
    else
      var prev := Assemble(cols[..|cols| - 1]);
      var (key, col) := cols[|cols| - 1];
      if col.Some? then prev[key := col.value] else prev
  }

  /** The record `transformRecord` builds. */
  function Transformed(record: Value, mapping: seq<(string, Value)>, host: Host): map<string, Value> {
    Assemble(Evaluated(record, mapping, host))
  }

  /** The body of the `try` block for one column: None leaves the column unset. */
  method EvaluateColumn(record: Value, jqPath: Value, host: Host) returns (col: Option<Value>)
    ensures col == EvalExpression(record, jqPath, host)
  {
    if !jqPath.Str? {
      return Some(Null);
    }
    var s := jqPath.s;
    if s != [] && s[0] == '(' && s[|s| - 1] == ')' {
      var match_ := ParenGroup(s);
      if match_.Some? {
        var parts := TrimAll(Split(match_.value, '+'));
        var value := Concatenate(record, parts, host);
        col := Some(Str(value));
      } else {
        col := None;
      }
    } else if '|' in s {
      var match_ := QuotedGroup(s);
      if match_.Some? {
        var cleanField := Remove(match_.value, IsQuote);
        var val := GetNestedValue(record, cleanField);
        if val.Arr? {
          col := Some(Str(JoinElements(val.elems, "|", host)));
        } else {
          col := Some(val);
        }
      } else {
        var val := GetNestedValue(record, DropFirst(s));
        col := Some(val);
      }
    } else {
      var val := GetNestedValue(record, DropFirst(s));
      col := Some(val);
    }
  }

  /** `transformRecord(record, mapping)` */
  method TransformRecord(record: Value, mapping: seq<(string, Value)>, host: Host)
    returns (result: map<string, Value>)
    ensures result == Transformed(record, mapping, host)
  {
    ghost var cols := Evaluated(record, mapping, host);
    result := map[];
    var i := 0;
    while i < |mapping|
      invariant 0 <= i <= |mapping|
      invariant result == Assemble(cols[..i])
    {
      var outputKey := mapping[i].0;
      assert cols[..i + 1][..i] == cols[..i];
      if outputKey != "i18nkey" {
        var col := EvaluateColumn(record, mapping[i].1, host);
        if col.Some? {
          result := result[outputKey := col.value];
        }
      }
      i := i + 1;
    }
    assert cols[..|mapping|] == cols;
  }

  /* ---------- what the forms compute ---------- */

  /** The text one concatenation part contributes when it names the top-level key `key`. */
  function TopLevelText(record: Value, key: string, host: Host): string {
    var v := if IsNullish(record) then Null else Get(record, key);
    if IsNullish(v) then "" else ToText(v, host)
  }

  /** Trimming, then deleting the dots, then deleting the white space, deletes every dot
      and every white-space character of the piece. */
  lemma CleanPartOfTrimmed(piece: string)
    ensures CleanPart(Trim(piece)) == Remove(piece, IsDotOrSpace)
  {
    var pre, post := TrimSplits(piece);
    var m := Trim(piece);
    assert Remove(piece, IsDotOrSpace) == Remove(m, IsDotOrSpace) by {
      assert forall i :: 0 <= i < |pre| ==> IsDotOrSpace(pre[i]);
      assert forall i :: 0 <= i < |post| ==> IsDotOrSpace(post[i]);
      RemoveAround(pre, m, post, IsDotOrSpace);
    }
    RemoveTwice(m, IsDot, IsSpace, IsDotOrSpace);
  }

  /** A concatenation part is looked up as one top-level key: the piece with all its dots
      and white space deleted; so `.upgrade.air` reads the key "upgradeair". */
  lemma PartIsTopLevelKey(record: Value, piece: string, host: Host)
    ensures PartText(record, Trim(piece), host) == TopLevelText(record, Remove(piece, IsDotOrSpace), host)
  {
    var key := Remove(piece, IsDotOrSpace);
    CleanPartOfTrimmed(piece);
    assert '.' !in key by {
      forall i | 0 <= i < |key| ensures key[i] != '.' {
        assert !IsDotOrSpace(key[i]);
      }
    }
    SingleKey(record, key);
  }

  /** For each `+` piece, the text of the top-level key it names once its dots and
      white space are deleted. */
  function KeyTexts(record: Value, pieces: seq<string>, host: Host): seq<string> {
    seq(|pieces|, i requires 0 <= i < |pieces| => TopLevelText(record, Remove(pieces[i], IsDotOrSpace), host))
  }

  /** The concatenation is the parts' top-level lookups written out left to right,
      missing and null ones contributing "". */
  lemma ConcatFormTexts(record: Value, pieces: seq<string>, host: Host)
    ensures ConcatText(record, TrimAll(pieces), host) == Concat(KeyTexts(record, pieces, host))
  {
    var parts := TrimAll(pieces);
    var texts := PartTexts(record, parts, host);
    var tops := KeyTexts(record, pieces, host);
    forall i | 0 <= i < |pieces| ensures texts[i] == tops[i] {
      PartIsTopLevelKey(record, pieces[i], host);
    }
    assert texts == tops;
  }

  /** `open field tail`, with no ")" in `field` and `tail` starting with `close`, which
      starts with ")", has `field` as its first group. */
  lemma GroupFront(open: string, field: string, close: string, tail: string)
    requires field != [] && ')' !in field && close != [] && close[0] == ')'
    requires |close| <= |tail| && tail[..|close|] == close
    ensures FindGroup(open + field + tail, open, close, 0) == Some(field)
  {
    FrontMatches(open, field, close, tail);
    FoundHere(open + field + tail, open, close, 0, field);
  }

  /** The pattern matches `open field tail` at its start, capturing `field`. */
  lemma FrontMatches(open: string, field: string, close: string, tail: string)
    requires field != [] && ')' !in field && close != [] && close[0] == ')'
    requires |close| <= |tail| && tail[..|close|] == close
    ensures var s := open + field + tail;
      MatchesHere(s, open, close, 0)
      && field == s[|open|..|open| + IndexOf(s[|open|..], ')')]
  {
    var s := open + field + tail;
    FrontIndex(open, field, close, tail);
    FrontSlices(open, field, tail, |close|);
    MatchAtStart(s, open, close, |field|);
  }

  /** The first ")" after `open` in `open field tail` ends `field`. */
  lemma FrontIndex(open: string, field: string, close: string, tail: string)
    requires ')' !in field && close != [] && close[0] == ')'
    requires |close| <= |tail| && tail[..|close|] == close
    ensures IndexOf((open + field + tail)[|open|..], ')') == |field|
  {
    assert (open + field + tail)[|open|..] == field + tail;
    assert IndexOf(tail, ')') == 0 by {
      assert tail[0] == close[0];
    }
    IndexOfAppend(field, tail, ')');
  }

  /** The three parts of `open field tail`, read back by position. */
  lemma FrontSlices(open: string, field: string, tail: string, m: nat)
    requires m <= |tail|
    ensures var s := open + field + tail;
      && s[0..|open|] == open
      && s[|open|..|open| + |field|] == field
      && s[|open| + |field|..|open| + |field| + m] == tail[..m]
  {
    var s := open + field + tail;
    assert s[|open| + |field|..] == tail;
  }

  lemma MatchAtStart(s: string, open: string, close: string, n: nat)
    requires 0 < n && |open| + n + |close| <= |s|
    requires s[0..|open|] == open
    requires IndexOf(s[|open|..], ')') == n
    requires s[|open| + n..|open| + n + |close|] == close
    ensures MatchesHere(s, open, close, 0)
  {
  }

  /** When the pattern matches at `from`, the search stops there with capture `g`. */
  lemma FoundHere(s: string, open: string, close: string, from: nat, g: string)
    requires MatchesHere(s, open, close, from)
    requires g == s[from + |open|..from + |open| + IndexOf(s[from + |open|..], ')')]
    ensures FindGroup(s, open, close, from) == Some(g)
  {
  }

  /** A parenthesised expression without another ")" inside is its own group. */
  lemma ParenGroupWhole(inner: string)
    requires inner != [] && ')' !in inner
    ensures ParenGroup("(" + inner + ")") == Some(inner)
  {
    GroupFront("(", inner, ")", ")");
  }

  /** `(p1 + p2 + …)` always stores a string: the texts of the top-level keys the pieces
      name, left to right. A nested path such as `.upgrade.air` therefore reads the single
      key "upgradeair", not `upgrade` then `air`. */
  lemma ConcatForm(record: Value, inner: string, host: Host)
    requires inner != [] && ')' !in inner
    ensures EvalExpression(record, Str("(" + inner + ")"), host)
         == Some(Str(Concat(KeyTexts(record, Split(inner, '+'), host))))
  {
    var s := "(" + inner + ")";
    assert IsConcatShaped(s);
    ParenGroupWhole(inner);
    ConcatFormTexts(record, Split(inner, '+'), host);
  }

  /** A quoted group at the very front of an expression is the one `"(…)"` finds. */
  lemma QuotedGroupFront(field: string, rest: string)
    requires field != [] && ')' !in field
    ensures QuotedGroup("\"(" + field + ")\"" + rest) == Some(field)
  {
    GroupFront("\"(", field, ")\"", ")\"" + rest);
    assert "\"(" + field + (")\"" + rest) == "\"(" + field + ")\"" + rest;
  }

  /** The `|` form: the first quoted group, with its quotes deleted, is resolved as a path;
      an array comes out as its elements joined with "|", anything else unchanged. */
  lemma PipeForm(record: Value, s: string, field: string, host: Host)
    requires '|' in s && !IsConcatShaped(s)
    requires FirstGroup(s, "\"(", ")\"", 0, field)
    ensures var v := Resolve(record, Remove(field, IsQuote));
      EvalExpression(record, Str(s), host) == Some(if v.Arr? then Str(JoinElements(v.elems, "|", host)) else v)
  {
    FirstGroupFound(s, "\"(", ")\"", field);
  }

  /** The search returns the first match, whatever precedes it. */
  lemma FirstGroupFound(s: string, open: string, close: string, g: string)
    requires close != [] && close[0] == ')'
    requires FirstGroup(s, open, close, 0, g)
    ensures FindGroup(s, open, close, 0) == Some(g)
  {
    FindGroupSpec(s, open, close, 0);
    FirstGroupExists(s, open, close, 0, g);
    match FindGroup(s, open, close, 0)
    case Some(h) => FirstGroupUnique(s, open, close, 0, h, g);
  }

  /** A first match rules out "no match". */
  lemma FirstGroupExists(s: string, open: string, close: string, from: nat, g: string)
    requires FirstGroup(s, open, close, from, g)
    ensures !NoGroupFrom(s, open, close, from)
  {
    var k, j :| from <= k && GroupAt(s, open, close, k, j) && g == s[k + |open|..j];
    assert !NoGroupAt(s, open, close, k);
  }

  /** There is only one first match: the leftmost start, ended at the first ")". */
  lemma FirstGroupUnique(s: string, open: string, close: string, from: nat, g1: string, g2: string)
    requires close != [] && close[0] == ')'
    requires FirstGroup(s, open, close, from, g1) && FirstGroup(s, open, close, from, g2)
    ensures g1 == g2
  {
    var k1, j1 :| from <= k1 && GroupAt(s, open, close, k1, j1) && g1 == s[k1 + |open|..j1]
      && forall k' :: from <= k' < k1 ==> NoGroupAt(s, open, close, k');
    var k2, j2 :| from <= k2 && GroupAt(s, open, close, k2, j2) && g2 == s[k2 + |open|..j2]
      && forall k' :: from <= k' < k2 ==> NoGroupAt(s, open, close, k');
    assert k1 == k2 by {
      assert !(k1 < k2) by {
        assert NoGroupAt(s, open, close, k1) ==> !GroupAt(s, open, close, k1, j1);
      }
      assert !(k2 < k1) by {
        assert NoGroupAt(s, open, close, k2) ==> !GroupAt(s, open, close, k2, j2);
      }
    }
    assert j1 == j2 by {
      assert s[j1] == close[0] && s[j2] == close[0];
    }
  }

  /** A plain path: whatever its first character (other than "|"), the rest is split on
      "." and walked key by key, unless the whole text is of the concatenation shape. */
  lemma PlainForm(record: Value, first: char, keys: seq<string>, host: Host)
    requires first != '|' && !IsConcatShaped([first] + Join(keys, "."))
    requires |keys| >= 1
    requires forall i :: 0 <= i < |keys| ==> '.' !in keys[i] && '|' !in keys[i]
    ensures EvalExpression(record, Str([first] + Join(keys, ".")), host) == Some(Walk(record, keys))
  {
    var s := [first] + Join(keys, ".");
    JoinAvoids(keys, ".", '|');
    assert '|' !in s;
    assert DropFirst(s) == Join(keys, ".");
    DottedPath(record, keys);
  }

  /** With a "|" but no `"(…)"` group anywhere, the expression without its first character
      is read as a dotted path. */
  lemma PipeFallback(record: Value, s: string, host: Host)
    requires '|' in s && !IsConcatShaped(s)
    requires NoGroupFrom(s, "\"(", ")\"", 0)
    ensures EvalExpression(record, Str(s), host) == Some(Resolve(record, DropFirst(s)))
  {
    NoGroupFound(s, "\"(", ")\"");
  }

  /** When no position matches, the search finds nothing. */
  lemma NoGroupFound(s: string, open: string, close: string)
    requires close != [] && close[0] == ')'
    requires NoGroupFrom(s, open, close, 0)
    ensures FindGroup(s, open, close, 0).None?
  {
    FindGroupSpec(s, open, close, 0);
    NoGroupAnywhere(s, open, close, 0);
  }

  lemma NoGroupAnywhere(s: string, open: string, close: string, from: nat)
    requires NoGroupFrom(s, open, close, from)
    ensures forall k, j :: from <= k ==> !GroupAt(s, open, close, k, j)
  {
    forall k, j | from <= k ensures !GroupAt(s, open, close, k, j) {
      assert NoGroupAt(s, open, close, k);
    }
  }

  /** "()" has no group with at least one character: the column is left unset. */
  lemma EmptyParenthesesLeaveColumnUnset(record: Value, host: Host)
    ensures EvalExpression(record, Str("()"), host) == None
  {
    assert !MatchesHere("()", "(", ")", 0) by {
      assert "()"[1..] == ")";
      assert IndexOf(")", ')') == 0;
    }
  }

  /** Storing entries with distinct keys: a key is present exactly when its entry holds
      a value, and then it holds that value. */
  lemma {:induction false} AssembleKeys(cols: seq<(string, Option<Value>)>)
    requires forall i, j :: 0 <= i < j < |cols| ==> cols[i].0 != cols[j].0
    ensures forall k :: k in Assemble(cols) ==> exists i :: 0 <= i < |cols| && cols[i].0 == k && cols[i].1.Some?
    ensures forall i :: 0 <= i < |cols| ==> (cols[i].0 in Assemble(cols) <==> cols[i].1.Some?)
    ensures forall i :: 0 <= i < |cols| && cols[i].1.Some? ==> Assemble(cols)[cols[i].0] == cols[i].1.value
    decreases |cols|
  {
    if cols != [] {
      var n := |cols| - 1;
      var prev := cols[..n];
      assert forall i :: 0 <= i < n ==> prev[i] == cols[i];
      AssembleKeys(prev);
    }
  }

  /** The columns of a transformed record: never `i18nkey`; a declared column is present
      exactly when its expression stores a value (only a concatenation without a group
      leaves it out), and then it holds that value, whatever the other columns do. */
  lemma TransformedColumns(record: Value, mapping: seq<(string, Value)>, host: Host)
    requires DistinctKeys(mapping)
    ensures "i18nkey" !in Transformed(record, mapping, host)
    ensures forall k :: k in Transformed(record, mapping, host) ==> k in Columns(mapping)
    ensures forall i :: 0 <= i < |mapping| && mapping[i].0 != "i18nkey" ==>
      (mapping[i].0 in Transformed(record, mapping, host) <==> EvalExpression(record, mapping[i].1, host).Some?)
    ensures forall i :: 0 <= i < |mapping| && mapping[i].0 in Transformed(record, mapping, host) ==>
      Transformed(record, mapping, host)[mapping[i].0] == EvalExpression(record, mapping[i].1, host).value
  {
    var cols := Evaluated(record, mapping, host);
    var t := Transformed(record, mapping, host);
    assert t == Assemble(cols);
    assert forall i :: 0 <= i < |cols| ==> cols[i].0 == mapping[i].0;
    assert forall i :: 0 <= i < |cols| && cols[i].0 == "i18nkey" ==> cols[i].1.None?;
    AssembledColumns(mapping, cols);
    forall i | 0 <= i < |mapping| && mapping[i].0 in t
      ensures EvalExpression(record, mapping[i].1, host).Some?
        && t[mapping[i].0] == EvalExpression(record, mapping[i].1, host).value
    {
      assert mapping[i].0 != "i18nkey";
      assert cols[i] == (mapping[i].0, EvalExpression(record, mapping[i].1, host));
    }
  }

  /** The object assembled from one stored value per mapping entry, with nothing stored
      for `i18nkey`. */
  lemma AssembledColumns(mapping: seq<(string, Value)>, cols: seq<(string, Option<Value>)>)
    requires DistinctKeys(mapping) && |cols| == |mapping|
    requires forall i :: 0 <= i < |cols| ==> cols[i].0 == mapping[i].0
    requires forall i :: 0 <= i < |cols| && cols[i].0 == "i18nkey" ==> cols[i].1.None?
    ensures "i18nkey" !in Assemble(cols)
    ensures forall k :: k in Assemble(cols) ==> k in Columns(mapping)
    ensures forall i :: 0 <= i < |cols| ==> (cols[i].0 in Assemble(cols) <==> cols[i].1.Some?)
    ensures forall i :: 0 <= i < |cols| && cols[i].1.Some? ==> Assemble(cols)[cols[i].0] == cols[i].1.value
  {
    AssembleKeys(cols);
  }

  /** A mapping value that is not a string throws inside the column's `try`; the `catch`
      stores null in that column and every other column is evaluated as usual. */
  lemma NonStringExpressionGivesNull(record: Value, mapping: seq<(string, Value)>, host: Host, i: nat)
    requires DistinctKeys(mapping)
    requires i < |mapping| && mapping[i].0 != "i18nkey" && !mapping[i].1.Str?
    ensures mapping[i].0 in Transformed(record, mapping, host)
    ensures Transformed(record, mapping, host)[mapping[i].0] == Null
  {
    TransformedColumns(record, mapping, host);
  }
}
