// The MySQL connection-string normaliser. Start-up runs it twice on the same string.
module ConnectionStrings {
  import opened Wrappers

  // ----- string operations of the Go library ---------------------------------------

  /** The characters strings.TrimSpace removes. */
  predicate IsSpace(c: char) {
    c in "\t\n\U{B}\U{C}\r \U{85}\U{A0}\U{1680}\U{2028}\U{2029}\U{202F}\U{205F}\U{3000}" || '\U{2000}' <= c <= '\U{200A}'
  }

  predicate IsQuote(c: char) {
    c == '"' || c == '\''
  }

  const SCHEME := "mysql://"

  predicate At(s: string, part: string, i: int) {
    0 <= i <= |s| - |part| && s[i..i + |part|] == part
  }

  predicate Contains(s: string, part: string) {
    exists i :: 0 <= i <= |s| && At(s, part, i)
  }

  function TrimLeft(s: string, cut: char -> bool): string {
    if s != "" && cut(s[0]) then TrimLeft(s[1..], cut) else s
  }

  function TrimRight(s: string, cut: char -> bool): string {
    if s != "" && cut(s[|s| - 1]) then TrimRight(s[..|s| - 1], cut) else s
  }

  function Trim(s: string, cut: char -> bool): string {
    TrimRight(TrimLeft(s, cut), cut)
  }

  function ReplaceFirst(s: string, part: string, replacement: string): string {
    if |s| < |part| then s
    else if s[..|part|] == part then replacement + s[|part|..]
    else if s == "" then s
    else [s[0]] + ReplaceFirst(s[1..], part, replacement)
  }

  // ----- the normaliser ---------------------------------------------------------------

  /** The parts of a parsed URL that are used; user and password come percent-decoded. */
  datatype Url = Url(user: string, password: string, host: string, path: string, query: string)

  /** url.Parse, left open: a URL or an error. */
  type Parser = string -> Option<Url>

  function Bare(s: string): string {
    Trim(Trim(s, IsSpace), IsQuote)
  }

  function WithParam(s: string, key: string, text: string): string {
    if Contains(s, key) then s else s + text
  }

  function Complete(s: string): string {
    WithParam(WithParam(WithParam(s, "tls=", if Contains(s, "?") then "&tls=true" else "?tls=true"),
                        "parseTime=", "&parseTime=true"),
              "timeout=", "&timeout=30s")
  }

  function QueryWithTls(query: string): string {
    ReplaceFirst(ReplaceFirst(query, "ssl-mode=REQUIRED", "tls=true"), "ssl-mode=PREFERRED", "tls=true")
  }

  function Params(query: string): string {
    WithParam(WithParam(WithParam(QueryWithTls(query), "tls=", "&tls=true"), "parseTime=", "&parseTime=true"), "timeout=", "&timeout=30s")
  }

  function UrlFront(u: Url): string {
    var db := if "/" <= u.path then u.path[1..] else u.path;
    u.user + ":" + u.password + "@tcp(" + u.host + ")/" + db + "?"
  }

  function FromUrl(u: Url): string {
    UrlFront(u) + Params(u.query)
  }

  function Normalise(parse: Parser, s: string): Option<string> {
    var bare := Bare(s);
    if SCHEME <= bare then
      (match parse(bare)
       case None => None
       case Some(u) => Some(FromUrl(u)))
    else Some(Complete(bare))
  }

  method ParseMySQLConnectionString(parse: Parser, s: string) returns (r: Option<string>)
    ensures r == Normalise(parse, s)
    ensures r.Some? ==> Contains(r.value, "tls=") && Contains(r.value, "parseTime=") && Contains(r.value, "timeout=")
  {
    NormalisedHasAllParams(parse, s);
    var connStr := Trim(s, IsSpace);
    connStr := Trim(connStr, IsQuote);
    if SCHEME <= connStr {
      var u := parse(connStr);
      if u.None? {
        return None;
      }
      var db := u.value.path;
      if "/" <= db {
        db := db[1..];
      }
      var params := u.value.query;
      params := ReplaceFirst(params, "ssl-mode=REQUIRED", "tls=true");
      params := ReplaceFirst(params, "ssl-mode=PREFERRED", "tls=true");
      if !Contains(params, "tls=") {
        params := params + "&tls=true";
      }
      if !Contains(params, "parseTime=") {
        params := params + "&parseTime=true";
      }
      if !Contains(params, "timeout=") {
        params := params + "&timeout=30s";
      }
      return Some(u.value.user + ":" + u.value.password + "@tcp(" + u.value.host + ")/" + db + "?" + params);
    }
    if !Contains(connStr, "tls=") {
      if Contains(connStr, "?") {
        connStr := connStr + "&tls=true";
      } else {
        connStr := connStr + "?tls=true";
      }
    }
    if !Contains(connStr, "parseTime=") {
      connStr := connStr + "&parseTime=true";
    }
    if !Contains(connStr, "timeout=") {
      connStr := connStr + "&timeout=30s";
    }
    return Some(connStr);
  }

  // ----- every result has the three parameters --------------------------------------------

  predicate HasAllParams(s: string) {
    Contains(s, "tls=") && Contains(s, "parseTime=") && Contains(s, "timeout=")
  }

  lemma ContainsAfterAppend(s: string, t: string, part: string)
    ensures Contains(s, part) ==> Contains(s + t, part) && Contains(t + s, part)
  {
    if Contains(s, part) {
      var i :| 0 <= i <= |s| && At(s, part, i);
      assert At(s + t, part, i);
      assert At(t + s, part, |t| + i);
    }
  }

  lemma WithParamContains(s: string, key: string, text: string)
    requires Contains(text, key)
    ensures Contains(WithParam(s, key, text), key)
    ensures forall part :: Contains(s, part) ==> Contains(WithParam(s, key, text), part)
  {
    ContainsAfterAppend(text, s, key);
    forall part | Contains(s, part) ensures Contains(WithParam(s, key, text), part) {
      ContainsAfterAppend(s, text, part);
    }
  }

  lemma AddedParamsContainTheirKeys()
    ensures Contains("&tls=true", "tls=") && Contains("?tls=true", "tls=")
    ensures Contains("&parseTime=true", "parseTime=") && Contains("&timeout=30s", "timeout=")
  {
    assert At("&tls=true", "tls=", 1) && At("?tls=true", "tls=", 1);
    assert At("&parseTime=true", "parseTime=", 1) && At("&timeout=30s", "timeout=", 1);
  }

  lemma CompleteHasAllParams(s: string, first: string)
    requires Contains(first, "tls=")
    ensures HasAllParams(WithParam(WithParam(WithParam(s, "tls=", first), "parseTime=", "&parseTime=true"), "timeout=", "&timeout=30s"))
  {
    AddedParamsContainTheirKeys();
    WithParamContains(s, "tls=", first);
    var t := WithParam(s, "tls=", first);
    WithParamContains(t, "parseTime=", "&parseTime=true");
    WithParamContains(WithParam(t, "parseTime=", "&parseTime=true"), "timeout=", "&timeout=30s");
  }

  lemma NormalisedHasAllParams(parse: Parser, s: string)
    ensures Normalise(parse, s).Some? ==> HasAllParams(Normalise(parse, s).value)
  {
    AddedParamsContainTheirKeys();
    var bare := Bare(s);
    CompleteHasAllParams(bare, if Contains(bare, "?") then "&tls=true" else "?tls=true");
    if SCHEME <= bare && parse(bare).Some? {
      var u := parse(bare).value;
      CompleteHasAllParams(QueryWithTls(u.query), "&tls=true");
      ContainsAfterAppend(Params(u.query), UrlFront(u), "tls=");
      ContainsAfterAppend(Params(u.query), UrlFront(u), "parseTime=");
      ContainsAfterAppend(Params(u.query), UrlFront(u), "timeout=");
    }
  }

  // ----- what is added, and what stays where ------------------------------------------------

  /** A text that starts with a foreign character brings in no parameter it does not hold. */
  lemma NothingNew(s: string, t: string, part: string)
    requires t != "" && t[0] !in part && part != "" && !Contains(t, part)
    ensures Contains(s + t, part) <==> Contains(s, part)
  {
    ContainsAfterAppend(s, t, part);
    if Contains(s + t, part) {
      var i :| 0 <= i <= |s + t| && At(s + t, part, i);
      if i + |part| <= |s| {
        assert At(s, part, i);
      } else if i <= |s| {
        AtHolds(s + t, part, i, |s| - i);
      } else {
        assert At(t, part, i - |s|);
      }
    }
  }

  lemma ParametersDoNotMix()
    ensures !Contains("&tls=true", "parseTime=") && !Contains("?tls=true", "parseTime=")
    ensures !Contains("&tls=true", "timeout=") && !Contains("?tls=true", "timeout=") && !Contains("&parseTime=true", "timeout=")
  {
    NotIn("&tls=true", "parseTime=", 'p');
    NotIn("?tls=true", "parseTime=", 'p');
    NotIn("&tls=true", "timeout=", 'm');
    NotIn("?tls=true", "timeout=", 'm');
    NotIn("&parseTime=true", "timeout=", 'o');
  }

  lemma NotIn(s: string, part: string, c: char)
    requires c in part && c !in s
    ensures !Contains(s, part)
  {
    var k :| 0 <= k < |part| && part[k] == c;
    forall i | 0 <= i <= |s| ensures !At(s, part, i) {
      if At(s, part, i) { AtHolds(s, part, i, k); }
    }
  }

  lemma AtHolds(s: string, part: string, i: nat, k: nat)
    requires At(s, part, i) && k < |part|
    ensures i + k < |s| && s[i + k] == part[k]
  {
    assert s[i..i + |part|][k] == s[i + k];
  }

  /** A DSN gets exactly the parameters it lacks, with these values and in this order; the first
      is set off with a question mark if there is none yet. */
  lemma CompletesExactly(s: string)
    ensures Complete(s) == s
              + (if Contains(s, "tls=") then "" else if Contains(s, "?") then "&tls=true" else "?tls=true")
              + (if Contains(s, "parseTime=") then "" else "&parseTime=true")
              + (if Contains(s, "timeout=") then "" else "&timeout=30s")
  {
    ParametersDoNotMix();
    var first := if Contains(s, "?") then "&tls=true" else "?tls=true";
    NothingNew(s, first, "parseTime=");
    NothingNew(s, first, "timeout=");
    NothingNew(WithParam(s, "tls=", first), "&parseTime=true", "timeout=");
  }

  /** The query of a URL gets the same, and its first ssl-mode setting becomes tls=true. */
  lemma ParamsExactly(query: string)
    ensures var tls := QueryWithTls(query);
            Params(query) == tls + (if Contains(tls, "tls=") then "" else "&tls=true")
                                 + (if Contains(tls, "parseTime=") then "" else "&parseTime=true")
                                 + (if Contains(tls, "timeout=") then "" else "&timeout=30s")
  {
    var tls := QueryWithTls(query);
    ParametersDoNotMix();
    NothingNew(tls, "&tls=true", "parseTime=");
    NothingNew(tls, "&tls=true", "timeout=");
    NothingNew(WithParam(tls, "tls=", "&tls=true"), "&parseTime=true", "timeout=");
  }

  /** Which texts are URLs, and that only those can fail. */
  lemma NormalisesExactly(parse: Parser, s: string)
    ensures Normalise(parse, s).None? <==> "mysql://" <= Bare(s) && parse(Bare(s)).None?
    ensures "mysql://" <= Bare(s) && parse(Bare(s)).Some? ==> Normalise(parse, s) == Some(FromUrl(parse(Bare(s)).value))
    ensures !("mysql://" <= Bare(s)) ==> Normalise(parse, s) == Some(Complete(Bare(s)))
  {
  }

  lemma BlanksAndQuotesExactly(c: char)
    ensures c in " \t\n\r" ==> IsSpace(c)
    ensures '!' <= c <= '~' ==> !IsSpace(c) && (IsQuote(c) <==> c == '"' || c == '\'')
  {
  }

  /** Replacing touches the first occurrence and nothing else. */
  lemma {:induction false} ReplacesTheFirst(s: string, part: string, replacement: string, i: nat)
    requires part != "" && At(s, part, i) && forall j :: 0 <= j < i ==> !At(s, part, j)
    ensures ReplaceFirst(s, part, replacement) == s[..i] + replacement + s[i + |part|..]
    decreases i
  {
    if i == 0 {
      assert s[..0] + replacement == replacement;
    } else {
      assert !At(s, part, 0);
      SkipsOne(s, part, replacement);
      AtInTail(s, part, i - 1);
      forall j | 0 <= j < i - 1 ensures !At(s[1..], part, j) {
        AtInTail(s, part, j);
        assert !At(s, part, j + 1);
      }
      ReplacesTheFirst(s[1..], part, replacement, i - 1);
      PutInFront(s, i, |part|, replacement);
    }
  }

  lemma SkipsOne(s: string, part: string, replacement: string)
    requires part != "" && |part| <= |s| && !At(s, part, 0)
    ensures ReplaceFirst(s, part, replacement) == [s[0]] + ReplaceFirst(s[1..], part, replacement)
  {
  }

  lemma AtInTail(s: string, part: string, i: nat)
    requires s != ""
    ensures At(s[1..], part, i) <==> At(s, part, i + 1)
  {
    if i + 1 + |part| <= |s| {
      assert s[1..][i..i + |part|] == s[i + 1..i + 1 + |part|];
    }
  }

  lemma PutInFront(s: string, i: nat, n: nat, middle: string)
    requires 0 < i && i + n <= |s|
    ensures [s[0]] + (s[1..][..i - 1] + middle + s[1..][i - 1 + n..]) == s[..i] + middle + s[i + n..]
  {
    assert [s[0]] + s[1..][..i - 1] == s[..i];
    assert s[1..][i - 1 + n..] == s[i + n..];
  }

  lemma {:induction false} ReplacesNothing(s: string, part: string, replacement: string)
    requires part != "" && !Contains(s, part)
    ensures ReplaceFirst(s, part, replacement) == s
  {
    if |s| >= |part| {
      assert !At(s, part, 0);
      forall i: nat | i <= |s[1..]| ensures !At(s[1..], part, i) {
        AtInTail(s, part, i);
        assert !At(s, part, i + 1);
      }
      ReplacesNothing(s[1..], part, replacement);
    }
  }

  function Before(s: string, c: char): string {
    if s == "" || s[0] == c then "" else [s[0]] + Before(s[1..], c)
  }

  function After(s: string, c: char): string {
    if s == "" then "" else if s[0] == c then s[1..] else After(s[1..], c)
  }

  lemma {:induction false} SplitsAt(front: string, c: char, back: string)
    requires c !in front
    ensures Before(front + [c] + back, c) == front && After(front + [c] + back, c) == back
  {
    var s := front + [c] + back;
    if front == "" {
      assert s == [c] + back;
    } else {
      assert s[1..] == front[1..] + [c] + back;
      SplitsAt(front[1..], c, back);
    }
  }

  /** Reading a rewritten URL as a DSN gives the parts of the URL, each in its place. */
  lemma UrlPartsReadBack(u: Url)
    requires ':' !in u.user && '@' !in u.password && ')' !in u.host && '?' !in u.path
    ensures var s := FromUrl(u);
            && Before(s, ':') == u.user && Before(After(s, ':'), '@') == u.password
            && (var address := After(After(s, ':'), '@');
                && "tcp(" <= address && Before(address[4..], ')') == u.host
                && (var rest := After(address[4..], ')');
                    && "/" <= rest && Before(rest[1..], '?') == (if "/" <= u.path then u.path[1..] else u.path)
                    && After(rest[1..], '?') == Params(u.query)))
  {
    var db := if "/" <= u.path then u.path[1..] else u.path;
    var tail := db + ['?'] + Params(u.query);
    var address := "tcp(" + (u.host + [')'] + ("/" + tail));
    Regroup(u.user, u.password, u.host, db, Params(u.query));
    SplitsAt(u.user, ':', u.password + ['@'] + address);
    SplitsAt(u.password, '@', address);
    DropsScheme(u.host + [')'] + ("/" + tail));
    SplitsAt(u.host, ')', "/" + tail);
    assert ("/" + tail)[1..] == tail;
    SplitsAt(db, '?', Params(u.query));
  }

  lemma DropsScheme(s: string)
    ensures "tcp(" <= "tcp(" + s && ("tcp(" + s)[4..] == s
  {
  }

  lemma Regroup(user: string, password: string, host: string, db: string, query: string)
    ensures user + ":" + password + "@tcp(" + host + ")/" + db + "?" + query
         == user + [':'] + (password + ['@'] + ("tcp(" + (host + [')'] + ("/" + (db + ['?'] + query)))))
  {
    assert "@tcp(" == "@" + "tcp(" && ")/" == ")" + "/";
  }

  // ----- normalising twice --------------------------------------------------------------------

  lemma {:induction false} TrimLeftKeeps(s: string, cut: char -> bool, part: string)
    requires part != "" && !cut(part[0]) && Contains(s, part)
    ensures Contains(TrimLeft(s, cut), part)
  {
    if s != "" && cut(s[0]) {
      var i :| 0 <= i <= |s| && At(s, part, i);
      assert s[i] == part[0];
      assert At(s[1..], part, i - 1);
      TrimLeftKeeps(s[1..], cut, part);
    }
  }

  lemma {:induction false} TrimRightKeeps(s: string, cut: char -> bool, part: string)
    requires part != "" && !cut(part[|part| - 1]) && Contains(s, part)
    ensures Contains(TrimRight(s, cut), part)
  {
    if s != "" && cut(s[|s| - 1]) {
      var i :| 0 <= i <= |s| && At(s, part, i);
      assert s[i + |part| - 1] == part[|part| - 1];
      assert At(s[..|s| - 1], part, i);
      TrimRightKeeps(s[..|s| - 1], cut, part);
    }
  }

  lemma BareKeeps(s: string, part: string)
    requires part != "" && Plain(part[0]) && Plain(part[|part| - 1]) && Contains(s, part)
    ensures Contains(Bare(s), part)
  {
    TrimLeftKeeps(s, IsSpace, part);
    TrimRightKeeps(TrimLeft(s, IsSpace), IsSpace, part);
    TrimLeftKeeps(Trim(s, IsSpace), IsQuote, part);
    TrimRightKeeps(TrimLeft(Trim(s, IsSpace), IsQuote), IsQuote, part);
  }

  /** A further normalisation of a string with all three parameters, as every normalised one
      is, changes nothing exactly when it has no outer blanks or quotes, as long as it does not
      read as a mysql:// URL. */
  lemma SecondTimeExactly(parse: Parser, once: string)
    ensures HasAllParams(once) && !(SCHEME <= Bare(once)) ==>
              (Normalise(parse, once) == Some(once) <==> Bare(once) == once)
  {
    if HasAllParams(once) {
      BareKeeps(once, "tls=");
      BareKeeps(once, "parseTime=");
      BareKeeps(once, "timeout=");
    }
  }

  predicate Plain(c: char) {
    !IsSpace(c) && !IsQuote(c)
  }

  predicate NoEdge(s: string, cut: char -> bool) {
    s == "" || (!cut(s[0]) && !cut(s[|s| - 1]))
  }

  lemma {:induction false} TrimLeftEdge(s: string, cut: char -> bool)
    ensures var r := TrimLeft(s, cut); r == "" || (!cut(r[0]) && r[|r| - 1] == s[|s| - 1])
    ensures TrimLeft(s, cut) == s <==> (s == "" || !cut(s[0]))
    ensures |TrimLeft(s, cut)| <= |s| && (|TrimLeft(s, cut)| == |s| ==> TrimLeft(s, cut) == s)
  {
    if s != "" && cut(s[0]) { TrimLeftEdge(s[1..], cut); }
  }

  lemma {:induction false} TrimRightEdge(s: string, cut: char -> bool)
    ensures var r := TrimRight(s, cut); r == "" || (!cut(r[|r| - 1]) && r[0] == s[0])
    ensures TrimRight(s, cut) == s <==> (s == "" || !cut(s[|s| - 1]))
    ensures |TrimRight(s, cut)| <= |s| && (|TrimRight(s, cut)| == |s| ==> TrimRight(s, cut) == s)
  {
    if s != "" && cut(s[|s| - 1]) { TrimRightEdge(s[..|s| - 1], cut); }
  }

  lemma TrimEdges(s: string, cut: char -> bool)
    ensures NoEdge(Trim(s, cut), cut)
    ensures Trim(s, cut) == s <==> NoEdge(s, cut)
    ensures |Trim(s, cut)| <= |s| && (|Trim(s, cut)| == |s| ==> Trim(s, cut) == s)
  {
    TrimLeftEdge(s, cut);
    TrimRightEdge(TrimLeft(s, cut), cut);
    TrimRightEdge(s, cut);
  }

  lemma BareExactly(s: string)
    ensures NoEdge(Bare(s), IsQuote)
    ensures Bare(s) == s <==> NoEdge(s, IsSpace) && NoEdge(s, IsQuote)
  {
    TrimEdges(s, IsSpace);
    TrimEdges(Trim(s, IsSpace), IsQuote);
    TrimEdges(s, IsQuote);
  }

  /** What is appended: nothing exactly if nothing was missing, and then it ends in a letter. */
  lemma CompleteShape(s: string)
    ensures s <= Complete(s) && Complete(s) != ""
    ensures Complete(s) == s <==> HasAllParams(s)
    ensures !HasAllParams(s) ==> Complete(s)[|Complete(s)| - 1] in {'e', 's'} && Complete(s)[|s|] in {'?', '&'}
  {
  }

  /** A bare string whose completed form has clean edges. */
  predicate StaysBare(bare: string) {
    (bare == "" || !IsSpace(bare[0])) && (HasAllParams(bare) ==> !IsSpace(bare[|bare| - 1]))
  }

  lemma EdgesAfterAppending(bare: string, once: string, all: bool)
    requires NoEdge(bare, IsQuote) && bare <= once && once != "" && (all <==> once == bare)
    requires !all ==> once[|once| - 1] in {'e', 's'} && once[|bare|] in {'?', '&'}
    ensures NoEdge(once, IsQuote)
    ensures NoEdge(once, IsSpace) <==> (bare == "" || !IsSpace(bare[0])) && (all ==> !IsSpace(bare[|bare| - 1]))
  {
  }

  lemma CompleteStaysBareExactly(bare: string)
    requires NoEdge(bare, IsQuote)
    ensures Bare(Complete(bare)) == Complete(bare) <==> StaysBare(bare)
  {
    BareExactly(Complete(bare));
    CompleteShape(bare);
    EdgesAfterAppending(bare, Complete(bare), HasAllParams(bare));
  }

  lemma CompleteIsNoUrl(bare: string)
    requires !(SCHEME <= bare)
    ensures !(SCHEME <= Complete(bare))
  {
    CompleteShape(bare);
    assert |bare| < |SCHEME| ==> SCHEME[|bare|] !in {'?', '&'};
  }

  /** A URL whose rewritten form has clean edges: at the front its user, at the back its query. */
  predicate UrlStaysBare(u: Url) {
    (u.user == "" || Plain(u.user[0])) && QueryStaysBare(QueryWithTls(u.query))
  }

  predicate QueryStaysBare(query: string) {
    HasAllParams(query) ==> Plain(query[|query| - 1])
  }

  lemma ParamsShape(query: string)
    ensures Params(query) != ""
    ensures Plain(Params(query)[|Params(query)| - 1]) <==> QueryStaysBare(QueryWithTls(query))
  {
    var tls := QueryWithTls(query);
    var a := WithParam(tls, "tls=", "&tls=true");
    var b := WithParam(a, "parseTime=", "&parseTime=true");
    AddedParamsContainTheirKeys();
    CompleteHasAllParams(tls, "&tls=true");
    ContainsNonEmpty(Params(query), "tls=");
    assert Plain('e') && Plain('s');
    if !Contains(b, "timeout=") {
      assert Params(query)[|Params(query)| - 1] == 's';
    } else if b != tls {
      assert b[|b| - 1] == 'e';
    }
  }

  lemma ContainsNonEmpty(s: string, part: string)
    requires Contains(s, part) && part != ""
    ensures s != ""
  {
  }

  lemma UrlFrontShape(u: Url)
    ensures UrlFront(u) != "" && (Plain(UrlFront(u)[0]) <==> u.user == "" || Plain(u.user[0]))
  {
  }

  lemma JoinEdges(front: string, back: string)
    requires front != "" && back != ""
    ensures Bare(front + back) == front + back <==> Plain(front[0]) && Plain(back[|back| - 1])
  {
    BareExactly(front + back);
  }

  lemma UrlStaysBareExactly(u: Url)
    ensures Bare(FromUrl(u)) == FromUrl(u) <==> UrlStaysBare(u)
  {
    var front, back := UrlFront(u), Params(u.query);
    UrlFrontShape(u);
    ParamsShape(u.query);
    JoinEdges(front, back);
  }

  /** Judged from the first input: normalising twice is normalising once exactly when the first
      pass left clean edges. For a DSN: removing the quotes uncovered no blank at the front, nor
      one at the back that stays there because no parameter was missing. For a URL: the same of
      its user and its query. */
  predicate CleanOnce(parse: Parser, s: string) {
    if SCHEME <= Bare(s) then parse(Bare(s)).Some? && UrlStaysBare(parse(Bare(s)).value) else StaysBare(Bare(s))
  }

  lemma TwiceIsOnceExactly(parse: Parser, s: string)
    ensures match Normalise(parse, s)
            case None => SCHEME <= Bare(s) && parse(Bare(s)).None?
            case Some(once) => !(SCHEME <= Bare(once)) ==> (Normalise(parse, once) == Some(once) <==> CleanOnce(parse, s))
    ensures !(SCHEME <= Bare(s)) && StaysBare(Bare(s)) ==>
              var once := Normalise(parse, s); once.Some? && Normalise(parse, once.value) == once
  {
    NormalisedHasAllParams(parse, s);
    BareExactly(s);
    if SCHEME <= Bare(s) {
      if parse(Bare(s)).Some? {
        UrlStaysBareExactly(parse(Bare(s)).value);
        SecondTimeExactly(parse, FromUrl(parse(Bare(s)).value));
      }
    } else {
      CompleteStaysBareExactly(Bare(s));
      CompleteIsNoUrl(Bare(s));
      SecondTimeExactly(parse, Complete(Bare(s)));
    }
  }

  /** The family start-up does not survive unchanged, and a member of it: blanks that only
      show once the quotes are gone. */
  lemma InnerBlankIsNotStable(parse: Parser, s: string, bare: string)
    requires bare == Bare(s) && |bare| > 1 && IsSpace(bare[0]) && Plain(bare[1]) && bare[1] != 'm'
    ensures var once := Normalise(parse, s); once.Some? && Normalise(parse, once.value) != once
  {
    var once := Complete(bare);
    CompleteShape(bare);
    assert once[0] == bare[0] && once[1] == bare[1];
    BareStartsAfterBlank(once);
    TwiceIsOnceExactly(parse, s);
  }

  lemma QuotedBlankIsNotStable(parse: Parser)
    ensures var once := Normalise(parse, "' u'"); once.Some? && Normalise(parse, once.value) != once
  {
    BareOfQuoted("' u'", " u");
    InnerBlankIsNotStable(parse, "' u'", " u");
  }

  lemma BareStartsAfterBlank(s: string)
    requires |s| > 1 && IsSpace(s[0]) && Plain(s[1])
    ensures Bare(s) == "" || Bare(s)[0] == s[1]
  {
    TrimLeftEdge(s[1..], IsSpace);
    assert TrimLeft(s, IsSpace) == s[1..];
    TrimRightEdge(s[1..], IsSpace);
    var t := Trim(s, IsSpace);
    TrimLeftEdge(t, IsQuote);
    TrimRightEdge(TrimLeft(t, IsQuote), IsQuote);
  }

  lemma BareOfQuoted(s: string, bare: string)
    requires s == "'" + bare + "'" && NoEdge(bare, IsQuote) && bare != ""
    ensures Bare(s) == bare
  {
    TrimEdges(s, IsSpace);
    assert s[1..] == bare + "'" && s[1..][..|bare|] == bare;
    TrimLeftEdge(s[1..], IsQuote);
    assert TrimLeft(s, IsQuote) == bare + "'";
    TrimRightEdge(bare, IsQuote);
    assert (bare + "'")[..|bare|] == bare;
  }
}
