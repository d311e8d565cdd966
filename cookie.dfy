/** The session cookie handling of lib/cookie.js: a `Cookie` header is parsed into an
    ordered jar of raw (still URL-encoded) name/value pairs and written back, and two
    tests tell whether a jar holds a login session and whether a response asks to log in
    again. */
module Cookie {
  import opened Wrappers
  import opened Text

  /** The cookie object: its entries in `Object.entries` order. */
  type Jar = seq<(string, string)>

  predicate UniqueNames(jar: Jar) {
    forall i, j :: 0 <= i < j < |jar| ==> jar[i].0 != jar[j].0
  }

  /** `cookies[name]`, if present. */
  function Find(jar: Jar, name: string): Option<string>
    decreases |jar|
  {
    if jar == [] then None
    else if jar[0].0 == name then Some(jar[0].1)
    else Find(jar[1..], name)
  }

  /** `cookies[name] = value`: an existing entry keeps its place, a new one goes last. */
  function Put(jar: Jar, name: string, value: string): (r: Jar)
    ensures Find(r, name) == Some(value)
    ensures forall other :: other != name ==> Find(r, other) == Find(jar, other)
    ensures forall i :: 0 <= i < |r| ==> r[i] == (name, value) || r[i] in jar
    ensures UniqueNames(jar) ==> UniqueNames(r)
    ensures Find(jar, name).None? && UniqueNames(jar) ==> r == jar + [(name, value)]
    decreases |jar|
  {
    if jar == [] then [(name, value)]
    else if jar[0].0 == name then [(name, value)] + jar[1..]
    else
      var rest := Put(jar[1..], name, value);
      assert forall i :: 1 <= i < |jar| ==> jar[i] in jar[1..];
      assert forall i :: 0 <= i < |rest| ==> rest[i].0 == name || rest[i] in jar[1..];
      [jar[0]] + rest
  }

  /** One `;`-separated piece: trimmed, then cut at its first "=", which must not be its
      first character; the value keeps any further "=". */
  function Entry(piece: string): Option<(string, string)> {
    var trimmed := Trim(piece);
    if trimmed == "" then None
    else
      var eqIndex := IndexOf(trimmed, '=');
      if eqIndex > 0 then Some((trimmed[..eqIndex], trimmed[eqIndex + 1..])) else None
  }

  /** The jar after one more piece. */
  function AddPiece(jar: Jar, piece: string): Jar {
    match Entry(piece)
    case None => jar
    case Some((name, value)) => Put(jar, name, value)
  }

  /** The jar after the given pieces, in order. */
  function ParsePieces(pieces: seq<string>): Jar
    decreases |pieces|
  {
    if pieces == [] then [] else AddPiece(ParsePieces(pieces[..|pieces| - 1]), pieces[|pieces| - 1])
  }

  /** `parseEncodedCookie(cookieStr)` */
  function ParseCookie(s: string): Jar {
    if s == "" then [] else ParsePieces(Split(s, ';'))
  }

  /** `parseEncodedCookie(cookieStr)`: the loop over the pieces. */
  method ParseEncodedCookie(cookieStr: string) returns (cookies: Jar)
    ensures cookies == ParseCookie(cookieStr)
  {
    cookies := [];
    if cookieStr == "" {
      return;
    }
    var pairs := Split(cookieStr, ';');
    for i := 0 to |pairs|
      invariant cookies == ParsePieces(pairs[..i])
    {
      ghost var prefix := pairs[..i + 1];
      assert prefix[..i] == pairs[..i] && prefix[i] == pairs[i];
      var trimmed := Trim(pairs[i]);
      if trimmed == "" {
        assert Entry(pairs[i]).None?;
        continue;
      }
      var eqIndex := IndexOf(trimmed, '=');
      if eqIndex > 0 {
        var key := trimmed[..eqIndex];
        var value := trimmed[eqIndex + 1..];
        assert Entry(pairs[i]) == Some((key, value));
        if key != "" {
          cookies := Put(cookies, key, value);
        }
      } else {
        assert Entry(pairs[i]).None?;
      }
    }
    assert pairs[..|pairs|] == pairs;
  }

  /* ---------- what parsing guarantees ---------- */

  /** Names are non-empty and hold neither "=" nor ";", values hold no ";", and each name
      appears once. */
  predicate WellFormed(jar: Jar) {
    UniqueNames(jar)
    && forall i :: 0 <= i < |jar| ==>
         jar[i].0 != "" && '=' !in jar[i].0 && ';' !in jar[i].0 && ';' !in jar[i].1
  }

  /** A piece yields a non-empty name without "=" and without leading white space; a
      piece without ";" yields a name and a value without ";". */
  lemma EntryShape(piece: string)
    ensures Entry(piece).Some? ==>
      var (name, value) := Entry(piece).value;
      && name != "" && '=' !in name && !IsSpace(name[0])
      && (';' !in piece ==> ';' !in name && ';' !in value)
  {
    if Entry(piece).Some? {
      var trimmed := Trim(piece);
      assert !IsSpace(trimmed[0]) by {
        var start := TrimStart(piece);
        assert trimmed == start[..|trimmed|];
      }
      if ';' !in piece {
        assert ';' !in trimmed by {
          TrimmedWithin(piece);
        }
        CutFree(trimmed, IndexOf(trimmed, '='));
      }
    }
  }

  /** Every character of the trimmed text is in the text. */
  lemma TrimmedWithin(s: string)
    ensures forall c :: c in Trim(s) ==> c in s
  {
    var pre, post := TrimSplits(s);
  }

  /** Cutting text without ";" gives two parts without ";". */
  lemma CutFree(s: string, k: nat)
    requires ';' !in s && k < |s|
    ensures ';' !in s[..k] && ';' !in s[k + 1..]
  {
    assert forall c :: c in s[..k] ==> c in s;
    assert forall c :: c in s[k + 1..] ==> c in s;
  }

  /** Whatever the header, the parsed jar is well formed. */
  lemma {:induction false} ParsePiecesWellFormed(pieces: seq<string>)
    requires forall i :: 0 <= i < |pieces| ==> ';' !in pieces[i]
    ensures WellFormed(ParsePieces(pieces))
    decreases |pieces|
  {
    if pieces != [] {
      var n := |pieces| - 1;
      ParsePiecesWellFormed(pieces[..n]);
      EntryShape(pieces[n]);
    }
  }

  lemma ParseCookieWellFormed(s: string)
    ensures WellFormed(ParseCookie(s))
  {
    SplitPiecesFree(s, ';');
    ParsePiecesWellFormed(Split(s, ';'));
  }

  /** The value the last piece naming `name` gives it, if any. */
  function LastValue(pieces: seq<string>, name: string): Option<string>
    decreases |pieces|
  {
    if pieces == [] then None
    else
      var last := Entry(pieces[|pieces| - 1]);
      if last.Some? && last.value.0 == name then Some(last.value.1)
      else LastValue(pieces[..|pieces| - 1], name)
  }

  /** For a name given more than once, the last piece wins. */
  lemma {:induction false} ParsePiecesLastWins(pieces: seq<string>, name: string)
    ensures Find(ParsePieces(pieces), name) == LastValue(pieces, name)
    decreases |pieces|
  {
    if pieces != [] {
      ParsePiecesLastWins(pieces[..|pieces| - 1], name);
    }
  }

  /** Appending `; name=value` to a header sets `name` to `value`, whatever came before. */
  lemma AppendedPieceWins(header: string, piece: string)
    requires ';' !in piece && Entry(piece).Some?
    ensures Find(ParseCookie(header + ";" + piece), Entry(piece).value.0) == Some(Entry(piece).value.1)
  {
    var s := header + ";" + piece;
    assert s == header + [';'] + piece;
    SplitAppend(header, piece, ';');
    SplitNoSeparator(piece, ';');
    var pieces := Split(s, ';');
    assert pieces[..|pieces| - 1] == Split(header, ';');
    ParsePiecesLastWins(pieces, Entry(piece).value.0);
  }

  /* ---------- stringifyCookie ---------- */

  /** `${key}=${value}` for each entry. */
  function Pairs(jar: Jar): (r: seq<string>)
    ensures |r| == |jar|
  {
    seq(|jar|, i requires 0 <= i < |jar| => jar[i].0 + "=" + jar[i].1)
  }

  /** `stringifyCookie(cookies)` */
  function StringifyCookie(jar: Jar): string {
    Join(Pairs(jar), "; ")
  }

  /** What makes an entry come back unchanged: a non-empty name without "=", ";" or
      leading white space, and a value without ";" or trailing white space. */
  predicate Reparsable(name: string, value: string) {
    name != [] && '=' !in name && ';' !in name && !IsSpace(name[0])
    && ';' !in value && (value == [] || !IsSpace(value[|value| - 1]))
  }

  lemma PairTrimmed(lead: string, name: string, value: string)
    requires lead == "" || lead == " "
    requires Reparsable(name, value)
    ensures Trim(lead + (name + "=" + value)) == name + "=" + value
  {
    var pair := name + "=" + value;
    assert pair[0] == name[0];
    assert !IsSpace(pair[|pair| - 1]) by {
      if value == [] {
        assert pair[|pair| - 1] == '=';
      } else {
        assert pair[|pair| - 1] == value[|value| - 1];
      }
    }
    assert TrimStart(pair) == pair;
    if lead == " " {
      assert (lead + pair)[1..] == pair;
      assert TrimStart(lead + pair) == TrimStart(pair);
    } else {
      assert lead + pair == pair;
    }
    TrimUnchanged(pair);
  }

  lemma PairCut(name: string, value: string)
    requires '=' !in name
    ensures var pair := name + "=" + value;
      IndexOf(pair, '=') == |name| && pair[..|name|] == name && pair[|name| + 1..] == value
  {
    var pair := name + "=" + value;
    assert IndexOf(pair, '=') == |name| by {
      assert pair == name + ("=" + value);
      IndexOfAppend(name, "=" + value, '=');
      assert IndexOf("=" + value, '=') == 0;
    }
    assert pair[..|name|] == name;
    assert pair[|name| + 1..] == value by {
      assert |pair| == |name| + 1 + |value|;
      forall i | 0 <= i < |value| ensures pair[|name| + 1 + i] == value[i] {
      }
    }
  }

  /** A written pair, with or without the space the separator leaves in front of it, reads
      back as the same entry. */
  lemma PairEntry(lead: string, name: string, value: string)
    requires lead == "" || lead == " "
    requires Reparsable(name, value)
    ensures Entry(lead + (name + "=" + value)) == Some((name, value))
  {
    PairTrimmed(lead, name, value);
    PairCut(name, value);
  }

  lemma PrefixSnoc(jar: Jar, n: nat)
    requires 0 < n <= |jar|
    ensures jar[..n - 1] + [jar[n - 1]] == jar[..n]
  {
  }

  lemma FindAbsent(jar: Jar, name: string)
    requires forall i :: 0 <= i < |jar| ==> jar[i].0 != name
    ensures Find(jar, name).None?
  {
  }

  /** Parsing the written pieces rebuilds the jar, one entry per piece. */
  lemma ParsePiecesStep(pieces: seq<string>, n: nat)
    requires 0 < n <= |pieces|
    ensures ParsePieces(pieces[..n]) == AddPiece(ParsePieces(pieces[..n - 1]), pieces[n - 1])
  {
    var prefix := pieces[..n];
    assert prefix[..n - 1] == pieces[..n - 1];
  }

  lemma PrefixUnique(jar: Jar, n: nat)
    requires UniqueNames(jar) && n <= |jar|
    ensures UniqueNames(jar[..n])
  {
    forall i, j | 0 <= i < j < n ensures jar[..n][i].0 != jar[..n][j].0 {
      assert jar[..n][i] == jar[i] && jar[..n][j] == jar[j];
    }
  }

  lemma PutNew(jar: Jar, name: string, value: string)
    requires UniqueNames(jar)
    requires forall i :: 0 <= i < |jar| ==> jar[i].0 != name
    ensures Put(jar, name, value) == jar + [(name, value)]
  {
    FindAbsent(jar, name);
  }

  /** One step of `ParseWrittenPieces`: the next written piece appends its entry. */
  lemma WrittenPieceStep(jar: Jar, pieces: seq<string>, n: nat)
    requires UniqueNames(jar) && 0 < n <= |jar| == |pieces|
    requires Entry(pieces[n - 1]) == Some(jar[n - 1])
    requires ParsePieces(pieces[..n - 1]) == jar[..n - 1]
    ensures ParsePieces(pieces[..n]) == jar[..n]
  {
    ParsePiecesStep(pieces, n);
    PutLastNew(jar, n);
  }

  /** In a jar with distinct names, putting the entry at `n - 1` after the ones before it
      appends it. */
  lemma PutLastNew(jar: Jar, n: nat)
    requires UniqueNames(jar) && 0 < n <= |jar|
    ensures Put(jar[..n - 1], jar[n - 1].0, jar[n - 1].1) == jar[..n]
  {
    var prev := jar[..n - 1];
    var last := jar[n - 1];
    PrefixUnique(jar, n - 1);
    forall i | 0 <= i < |prev| ensures prev[i].0 != last.0 {
      assert prev[i] == jar[i];
    }
    PutNew(prev, last.0, last.1);
    PrefixSnoc(jar, n);
  }

  lemma {:induction false} ParseWrittenPieces(jar: Jar, pieces: seq<string>, n: nat)
    requires UniqueNames(jar) && n <= |jar| == |pieces|
    requires forall i :: 0 <= i < |jar| ==> Entry(pieces[i]) == Some(jar[i])
    ensures ParsePieces(pieces[..n]) == jar[..n]
    decreases n
  {
    if n > 0 {
      ParseWrittenPieces(jar, pieces, n - 1);
      WrittenPieceStep(jar, pieces, n);
    } else {
      assert pieces[..0] == [] && jar[..0] == [];
    }
  }

  /** The `;`-separated pieces of a written header: every pair after the first keeps the
      space of the separator in front. */
  function WrittenPieces(jar: Jar): (r: seq<string>)
    requires jar != []
    ensures |r| == |jar|
  {
    var xs := Pairs(jar);
    [xs[0]] + Prefixed(xs[1..], " ")
  }

  lemma StringifyAsPieces(jar: Jar)
    requires jar != []
    ensures StringifyCookie(jar) == Join(WrittenPieces(jar), ";")
  {
    JoinLongSeparator(Pairs(jar), ';', " ");
    assert "; " == [';'] + " ";
  }

  lemma WrittenPiece(jar: Jar, i: nat)
    requires i < |jar|
    ensures WrittenPieces(jar)[i] == (if i == 0 then "" else " ") + (jar[i].0 + "=" + jar[i].1)
  {
    if i == 0 {
      assert "" + Pairs(jar)[0] == Pairs(jar)[0];
    }
  }

  lemma WrittenPiecesEntries(jar: Jar)
    requires jar != []
    requires forall i :: 0 <= i < |jar| ==> Reparsable(jar[i].0, jar[i].1)
    ensures forall i :: 0 <= i < |jar| ==> Entry(WrittenPieces(jar)[i]) == Some(jar[i])
    ensures forall i :: 0 <= i < |jar| ==> ';' !in WrittenPieces(jar)[i]
  {
    forall i | 0 <= i < |jar|
      ensures Entry(WrittenPieces(jar)[i]) == Some(jar[i]) && ';' !in WrittenPieces(jar)[i]
    {
      WrittenPieceEntry(jar, i);
    }
  }

  lemma WrittenPieceEntry(jar: Jar, i: nat)
    requires i < |jar| && Reparsable(jar[i].0, jar[i].1)
    ensures Entry(WrittenPieces(jar)[i]) == Some(jar[i]) && ';' !in WrittenPieces(jar)[i]
  {
    var lead := if i == 0 then "" else " ";
    var name := jar[i].0;
    var value := jar[i].1;
    WrittenPiece(jar, i);
    PairEntry(lead, name, value);
    assert ';' !in lead + (name + "=" + value) by {
      assert ';' !in lead && ';' !in name && ';' !in "=" && ';' !in value;
    }
  }

  /** A header whose first piece holds an entry is not empty. */
  lemma NonEmptyHeader(jar: Jar, pieces: seq<string>)
    requires jar != [] && pieces != [] && Split(StringifyCookie(jar), ';') == pieces
    requires Entry(pieces[0]).Some?
    ensures StringifyCookie(jar) != ""
  {
  }

  /** Round trip: a jar whose names and values avoid the separators and the white space
      `trim` would remove is read back exactly from its written form. */
  lemma ParseStringifyRoundTrip(jar: Jar)
    requires UniqueNames(jar)
    requires forall i :: 0 <= i < |jar| ==> Reparsable(jar[i].0, jar[i].1)
    ensures ParseCookie(StringifyCookie(jar)) == jar
  {
    if jar != [] {
      var pieces := WrittenPieces(jar);
      assert Split(StringifyCookie(jar), ';') == pieces by {
        StringifyAsPieces(jar);
        WrittenPiecesEntries(jar);
        SplitJoin(pieces, ';');
      }
      assert ParsePieces(pieces) == jar by {
        WrittenPiecesEntries(jar);
        ParseAllWrittenPieces(jar, pieces);
      }
      assert StringifyCookie(jar) != "" by {
        WrittenPiecesEntries(jar);
        NonEmptyHeader(jar, pieces);
      }
    }
  }

  lemma ParseAllWrittenPieces(jar: Jar, pieces: seq<string>)
    requires UniqueNames(jar) && |jar| == |pieces|
    requires forall i :: 0 <= i < |jar| ==> Entry(pieces[i]) == Some(jar[i])
    ensures ParsePieces(pieces) == jar
  {
    ParseWrittenPieces(jar, pieces, |jar|);
    TakeAll(pieces);
    TakeAll(jar);
  }

  lemma TakeAll<T>(s: seq<T>)
    ensures s[..|s|] == s
  {
  }

  /* ---------- the two tests ---------- */

  const LoginIndicators: seq<string> := ["wordpress_logged_in", "sbjs_session", "session"]

  /** `isValidCookie(cookies)`: some name contains some login indicator. */
  predicate IsValidCookie(jar: Jar) {
    exists i, j :: 0 <= i < |jar| && 0 <= j < |LoginIndicators| && Contains(jar[i].0, LoginIndicators[j])
  }

  /** `sbjs_session` adds nothing: every name containing it contains `session`, so a jar
      is valid exactly when some name contains `wordpress_logged_in` or `session`. */
  lemma IsValidCookieSimplified(jar: Jar)
    ensures IsValidCookie(jar) <==>
      exists i :: 0 <= i < |jar| && (Contains(jar[i].0, "wordpress_logged_in") || Contains(jar[i].0, "session"))
  {
    assert Contains("sbjs_session", "session") by {
      ContainsSuffix("sbjs_", "session");
      assert "sbjs_" + "session" == "sbjs_session";
    }
    if IsValidCookie(jar) {
      var i, j :| 0 <= i < |jar| && 0 <= j < |LoginIndicators| && Contains(jar[i].0, LoginIndicators[j]);
      if j == 1 {
        ContainsTransitive(jar[i].0, "sbjs_session", "session");
      }
    }
    if exists i :: 0 <= i < |jar| && (Contains(jar[i].0, "wordpress_logged_in") || Contains(jar[i].0, "session")) {
      var i :| 0 <= i < |jar| && (Contains(jar[i].0, "wordpress_logged_in") || Contains(jar[i].0, "session"));
      if Contains(jar[i].0, "wordpress_logged_in") {
        assert Contains(jar[i].0, LoginIndicators[0]);
      } else {
        assert Contains(jar[i].0, LoginIndicators[2]);
      }
    }
  }

  /** The parts of a fetch response the test reads. */
  datatype Response = Response(url: string, status: int)

  /** `needsReLogin(response, url)` */
  predicate NeedsReLogin(response: Response, url: string) {
    if response.url != "" && Contains(response.url, "/login") then true
    else if response.status == 401 || response.status == 403 then true
    else false
  }

  /** A redirect to a login page or a 401/403 status asks for a new login, nothing else
      does, and the request URL argument plays no part. */
  lemma NeedsReLoginSpec(response: Response, url: string, otherUrl: string)
    ensures NeedsReLogin(response, url) <==>
      Contains(response.url, "/login") || response.status == 401 || response.status == 403
    ensures NeedsReLogin(response, url) == NeedsReLogin(response, otherUrl)
  {
  }
}
