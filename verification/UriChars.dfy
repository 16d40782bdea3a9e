/** The characters of URI text: which ones each component escapes, and that nothing else than
    printable characters fit for a URI is ever written. */
module UriChars {
  import opened Basics
  import opened UriText

  /** What is escaped everywhere. */
  const NEVER: set<char> := {'\"', '<', '>', '\\', '^', '`', '{', '|', '}'}

  /** What each component escapes besides controls, the space and all from 0x7F on. */
  const SCHEME_RESERVED: set<char> := {'!', '\"', '#', '$', '%', '&', '\'', '(', ')', '*', ',', '/', ':', ';', '<', '=', '>', '?', '@', '[', '\\', ']', '^', '`', '{', '|', '}'}
  const USERINFO_RESERVED: set<char> := {'\"', '#', '%', '/', '<', '>', '?', '@', '[', '\\', ']', '^', '`', '{', '|', '}'}
  const HOST_RESERVED: set<char> := {'\"', '#', '%', '/', '<', '>', '?', '@', '\\', '^', '`', '{', '|', '}'}
  const PORT_RESERVED: set<char> := {'!', '\"', '#', '$', '%', '&', '\'', '(', ')', '*', '+', ',', '/', ':', ';', '<', '=', '>', '?', '@', '[', '\\', ']', '^', '`', '{', '|', '}'}
  const PATH_RESERVED: set<char> := {'\"', '#', '%', '<', '>', '?', '[', '\\', ']', '^', '`', '{', '|', '}'}
  const QUERY_RESERVED: set<char> := {'\"', '#', '%', '<', '>', '[', '\\', ']', '^', '`', '{', '|', '}'}
  const FRAGMENT_RESERVED: set<char> := {'\"', '#', '%', '<', '>', '[', '\\', ']', '^', '`', '{', '|', '}'}

  // ---------- the tables ----------

  lemma AllBits(k: nat)
    requires k < 32
    ensures Bit(0xFFFFFFFF, k)
  {
  }

  lemma SchemeMarks(k: nat)
    requires k < 32
    ensures Bit(0xFC0097FF, k) <==> (32 + k) as char in {' ', '!', '\"', '#', '$', '%', '&', '\'', '(', ')', '*', ',', '/', ':', ';', '<', '=', '>', '?'}
  {
  }

  lemma UserinfoMarks(k: nat)
    requires k < 32
    ensures Bit(0xD000802D, k) <==> (32 + k) as char in {' ', '\"', '#', '%', '/', '<', '>', '?'}
  {
  }

  lemma PortMarks(k: nat)
    requires k < 32
    ensures Bit(0xFC009FFF, k) <==> (32 + k) as char in {' ', '!', '\"', '#', '$', '%', '&', '\'', '(', ')', '*', '+', ',', '/', ':', ';', '<', '=', '>', '?'}
  {
  }

  lemma PathMarks(k: nat)
    requires k < 32
    ensures Bit(0xD000002D, k) <==> (32 + k) as char in {' ', '\"', '#', '%', '<', '>', '?'}
  {
  }

  lemma QueryMarks(k: nat)
    requires k < 32
    ensures Bit(0x5000002D, k) <==> (32 + k) as char in {' ', '\"', '#', '%', '<', '>'}
  {
  }

  lemma SchemeLetters(k: nat)
    requires k < 32
    ensures Bit(0x78000001, k) <==> (64 + k) as char in {'@', '[', '\\', ']', '^'}
  {
  }

  lemma HostLetters(k: nat)
    requires k < 32
    ensures Bit(0x50000001, k) <==> (64 + k) as char in {'@', '\\', '^'}
  {
  }

  lemma PathLetters(k: nat)
    requires k < 32
    ensures Bit(0x78000000, k) <==> (64 + k) as char in {'[', '\\', ']', '^'}
  {
  }

  lemma LastWord(k: nat)
    requires k < 32
    ensures Bit(0xB8000001, k) <==> k == 31 || (96 + k) as char in {'`', '{', '|', '}'}
  {
  }

  /** The last four words are full, and so is the first. */
  lemma TableWords(a: bv32, b: bv32, c: byte)
    ensures var t := HighBits(0xFFFFFFFF, a, b, 0xB8000001);
            && (c < 32 || c >= 128 ==> Reserved(c, t)) && (32 <= c < 64 ==> (Reserved(c, t) <==> Bit(a, c - 32)))
            && (64 <= c < 96 ==> (Reserved(c, t) <==> Bit(b, c - 64))) && (96 <= c < 128 ==> (Reserved(c, t) <==> Bit(0xB8000001, c - 96)))
  {
    AllBits(c % 32);
    hide Bit;
  }

  lemma SchemeEscapes(c: byte)
    ensures Reserved(c, SCHEME_TABLE) <==> c <= 32 || c >= 127 || c as char in SCHEME_RESERVED
  {
    TableWords(0xFC0097FF, 0x78000001, c);
    hide Reserved, Bit;
    if 32 <= c < 64 { SchemeMarks(c - 32); }
    if 64 <= c < 96 { SchemeLetters(c - 64); }
    if 96 <= c < 128 { LastWord(c - 96); }
  }

  lemma UserinfoEscapes(c: byte)
    ensures Reserved(c, USERINFO_TABLE) <==> c <= 32 || c >= 127 || c as char in USERINFO_RESERVED
  {
    TableWords(0xD000802D, 0x78000001, c);
    hide Reserved, Bit;
    if 32 <= c < 64 { UserinfoMarks(c - 32); }
    if 64 <= c < 96 { SchemeLetters(c - 64); }
    if 96 <= c < 128 { LastWord(c - 96); }
  }

  lemma HostEscapes(c: byte)
    ensures Reserved(c, HOST_TABLE) <==> c <= 32 || c >= 127 || c as char in HOST_RESERVED
  {
    TableWords(0xD000802D, 0x50000001, c);
    hide Reserved, Bit;
    if 32 <= c < 64 { UserinfoMarks(c - 32); }
    if 64 <= c < 96 { HostLetters(c - 64); }
    if 96 <= c < 128 { LastWord(c - 96); }
  }

  lemma PortEscapes(c: byte)
    ensures Reserved(c, PORT_TABLE) <==> c <= 32 || c >= 127 || c as char in PORT_RESERVED
  {
    TableWords(0xFC009FFF, 0x78000001, c);
    hide Reserved, Bit;
    if 32 <= c < 64 { PortMarks(c - 32); }
    if 64 <= c < 96 { SchemeLetters(c - 64); }
    if 96 <= c < 128 { LastWord(c - 96); }
  }

  lemma PathEscapes(c: byte)
    ensures Reserved(c, PATH_TABLE) <==> c <= 32 || c >= 127 || c as char in PATH_RESERVED
  {
    TableWords(0xD000002D, 0x78000000, c);
    hide Reserved, Bit;
    if 32 <= c < 64 { PathMarks(c - 32); }
    if 64 <= c < 96 { PathLetters(c - 64); }
    if 96 <= c < 128 { LastWord(c - 96); }
  }

  lemma QueryEscapes(c: byte)
    ensures Reserved(c, QUERY_TABLE) <==> c <= 32 || c >= 127 || c as char in QUERY_RESERVED
  {
    TableWords(0x5000002D, 0x78000000, c);
    hide Reserved, Bit;
    if 32 <= c < 64 { QueryMarks(c - 32); }
    if 64 <= c < 96 { PathLetters(c - 64); }
    if 96 <= c < 128 { LastWord(c - 96); }
  }

  lemma FragmentEscapes(c: byte)
    ensures Reserved(c, FRAGMENT_TABLE) <==> c <= 32 || c >= 127 || c as char in FRAGMENT_RESERVED
  {
    TableWords(0x5000002D, 0x78000000, c);
    hide Reserved, Bit;
    if 32 <= c < 64 { QueryMarks(c - 32); }
    if 64 <= c < 96 { PathLetters(c - 64); }
    if 96 <= c < 128 { LastWord(c - 96); }
  }

  // ---------- digits ----------

  /** Escapes are written with upper-case digits and read with either. */
  lemma HexDigits(v: nat)
    requires v < 16
    ensures HexDigit(v) == "0123456789ABCDEF"[v] as int
    ensures HexValue("0123456789ABCDEF"[v] as int) == HexValue("0123456789abcdef"[v] as int) == v
  {
  }

  lemma NoHexDigit(c: byte)
    requires !(48 <= c <= 57) && !(65 <= c <= 70) && !(97 <= c <= 102)
    ensures HexValue(c) == 0
  {
  }

  /** The marks, spelled out. */
  lemma Marks()
    ensures [HASH, PERCENT, AMPERSAND, SLASH, COLON, SEMICOLON] == Ascii("#%&/:;")
    ensures [EQUALS, QUESTION, AT, OPEN, BACKSLASH, CLOSE] == Ascii("=?@[\\]")
  {
  }

  /** Only ASCII letters have another case. */
  lemma LetterCase(c: byte)
    ensures LowerByte(c) as char == if 'A' <= c as char <= 'Z' then ((c as char) - 'A') + 'a' else c as char
    ensures IsLetter(c) <==> 'a' <= LowerByte(c) as char <= 'z'
  {
  }

  /** Either separator ends a query. */
  lemma SeparatorEnds(a: Bytes, c: byte, rest: Bytes)
    requires c == '&' as int || c == ';' as int
    requires forall i :: 0 <= i < |a| ==> a[i] != '&' as int && a[i] != ';' as int
    ensures ParseQueries(a + [c] + rest) == StoredQuery(a) + ParseQueries(rest)
  {
    hide StoredQuery;
    var s := a + [c] + rest;
    assert s[|a|] == c && forall i :: 0 <= i < |a| ==> s[i] == a[i];
    assert FirstIn(s, SEPARATORS) == |a|;
    assert s[..|a|] == a && s[|a| + 1..] == rest;
  }

  // ---------- the text ----------

  /** Printable and fit for a URI. */
  predicate Fit(c: byte) {
    33 <= c <= 126 && c as char !in NEVER
  }

  predicate IsHex(c: byte) {
    48 <= c <= 57 || 65 <= c <= 70
  }

  /** A percent sign starts an escape. */
  predicate Escapes(s: Bytes, i: nat)
    requires i < |s|
  {
    s[i] == PERCENT ==> i + 2 < |s| && IsHex(s[i + 1]) && IsHex(s[i + 2])
  }

  /** Fit characters only, with whole escapes. */
  predicate Clean(s: Bytes) {
    forall i :: 0 <= i < |s| ==> Fit(s[i]) && Escapes(s, i)
  }

  lemma CleanJoin(a: Bytes, b: Bytes)
    requires Clean(a) && Clean(b)
    ensures Clean(a + b)
  {
    hide Fit;
    forall i | 0 <= i < |a + b| ensures Fit((a + b)[i]) && Escapes(a + b, i) {
      if i < |a| { assert Escapes(a, i); } else { assert Escapes(b, i - |a|); }
    }
  }

  /** A table that escapes all that is not fit, and the percent sign. */
  predicate Strict(t: Table) {
    forall c: byte :: !Fit(c) || c == PERCENT ==> Reserved(c, t)
  }

  lemma CleanByte(c: byte, t: Table)
    requires Strict(t)
    ensures Clean(EscapedByte(c, t))
  {
    hide Reserved;
  }

  lemma {:induction false} CleanEscaped(s: Bytes, t: Table)
    requires Strict(t)
    ensures Clean(Escaped(s, t))
  {
    hide Strict, Clean, EscapedByte;
    if s == [] {
      NothingClean();
    } else {
      CleanByte(s[0], t);
      CleanEscaped(s[1..], t);
      CleanJoin(EscapedByte(s[0], t), Escaped(s[1..], t));
    }
  }

  lemma NothingClean()
    ensures Clean([])
  {
  }

  lemma MarksClean()
    ensures Clean([COLON]) && Clean([SLASH, SLASH]) && Clean([AT]) && Clean([QUESTION]) && Clean([HASH]) && Clean([EQUALS]) && Clean([AMPERSAND])
  {
  }

  lemma AllStrict()
    ensures Strict(SCHEME_TABLE) && Strict(USERINFO_TABLE) && Strict(HOST_TABLE) && Strict(PORT_TABLE)
    ensures Strict(PATH_TABLE) && Strict(QUERY_TABLE) && Strict(FRAGMENT_TABLE)
  {
    hide Reserved;
    forall c: byte | !Fit(c) || c == PERCENT
      ensures Reserved(c, SCHEME_TABLE) && Reserved(c, USERINFO_TABLE) && Reserved(c, HOST_TABLE) && Reserved(c, PORT_TABLE)
      ensures Reserved(c, PATH_TABLE) && Reserved(c, QUERY_TABLE) && Reserved(c, FRAGMENT_TABLE)
    {
      SchemeEscapes(c);
      UserinfoEscapes(c);
      HostEscapes(c);
      PortEscapes(c);
      PathEscapes(c);
      QueryEscapes(c);
      FragmentEscapes(c);
    }
  }

  lemma CleanMarked(mark: Bytes, s: Option<Bytes>, t: Table)
    requires Clean(mark) && Strict(t)
    ensures Clean(Marked(mark, s, t))
  {
    hide Clean, Strict, Escaped;
    NothingClean();
    if s.Some? {
      CleanEscaped(s.value, t);
      CleanJoin(mark, Escaped(s.value, t));
    }
  }

  lemma {:induction false} CleanQueries(qs: seq<Query>)
    requires Strict(QUERY_TABLE)
    ensures Clean(JoinedQueries(qs))
  {
    hide Clean, Strict, Escaped;
    NothingClean();
    MarksClean();
    if qs == [] {
    } else {
      var q := qs[0];
      CleanEscaped(q.name, QUERY_TABLE);
      CleanMarked([EQUALS], q.value, QUERY_TABLE);
      CleanJoin(Escaped(q.name, QUERY_TABLE), Marked([EQUALS], q.value, QUERY_TABLE));
      if |qs| > 1 {
        CleanQueries(qs[1..]);
        CleanJoin([AMPERSAND], JoinedQueries(qs[1..]));
        CleanJoin(QueryText(q), [AMPERSAND] + JoinedQueries(qs[1..]));
      } else {
        assert QueryText(q) + [] == QueryText(q);
      }
    }
  }

  lemma CleanPathTail(p: Parts)
    requires Strict(PATH_TABLE) && Strict(QUERY_TABLE) && Strict(FRAGMENT_TABLE)
    ensures Clean(PathTail(p))
  {
    hide Clean, Strict, JoinedQueries, Marked;
    NothingClean();
    MarksClean();
    CleanQueries(p.queries);
    CleanJoin([QUESTION], JoinedQueries(p.queries));
    CleanMarked([], p.path, PATH_TABLE);
    CleanMarked([HASH], p.fragment, FRAGMENT_TABLE);
    CleanJoin(if p.queries == [] then [] else [QUESTION] + JoinedQueries(p.queries), Marked([HASH], p.fragment, FRAGMENT_TABLE));
    CleanJoin(Marked([], p.path, PATH_TABLE), QueryTail(p));
  }

  lemma CleanAuthority(p: Parts)
    requires p.host.Some? && Strict(USERINFO_TABLE) && Strict(HOST_TABLE) && Strict(PORT_TABLE)
    ensures Clean([SLASH, SLASH] + (UserinfoText(p) + HostText(p.host.value, p.port)))
  {
    hide Clean, Strict, Marked, Escaped;
    NothingClean();
    MarksClean();
    if p.userinfo.Some? {
      CleanEscaped(p.userinfo.value, USERINFO_TABLE);
      CleanJoin(Escaped(p.userinfo.value, USERINFO_TABLE), [AT]);
    }
    CleanEscaped(p.host.value, HOST_TABLE);
    CleanMarked([COLON], p.port, PORT_TABLE);
    CleanJoin(Escaped(p.host.value, HOST_TABLE), Marked([COLON], p.port, PORT_TABLE));
    CleanJoin(UserinfoText(p), HostText(p.host.value, p.port));
    CleanJoin([SLASH, SLASH], UserinfoText(p) + HostText(p.host.value, p.port));
  }

  /** With a scheme, whatever bytes the parts hold, the text is of printable characters fit for a URI,
      and every percent sign in it starts an escape of two upper-case digits. */
  lemma TextIsClean(p: Parts)
    requires p.scheme.Some?
    ensures Clean(Text(p))
  {
    hide Clean, Strict, Escaped, PathTail, UserinfoText, HostText;
    AllStrict();
    MarksClean();
    NothingClean();
    CleanEscaped(p.scheme.value, SCHEME_TABLE);
    CleanPathTail(p);
    if p.host.Some? {
      CleanAuthority(p);
      CleanJoin([SLASH, SLASH] + (UserinfoText(p) + HostText(p.host.value, p.port)), PathTail(p));
    } else {
      assert [] + PathTail(p) == PathTail(p);
    }
    CleanJoin(Escaped(p.scheme.value, SCHEME_TABLE), [COLON]);
    CleanJoin(Escaped(p.scheme.value, SCHEME_TABLE) + [COLON], SchemeTail(p));
  }

  predicate Unreserved(s: Bytes, t: Table) {
    forall i :: 0 <= i < |s| ==> !Reserved(s[i], t)
  }

  lemma {:induction false} WrittenAsIs(s: Bytes, t: Table)
    requires Unreserved(s, t)
    ensures Escaped(s, t) == s
  {
    hide Reserved;
    if s == [] {
    } else {
      WrittenAsIs(s[1..], t);
      assert s == [s[0]] + s[1..];
    }
  }

  lemma UsualTail(p: Parts, path: Bytes, a: Bytes, x: Bytes, b: Bytes, fragment: Bytes)
    requires Unreserved(path, PATH_TABLE) && Unreserved(fragment, FRAGMENT_TABLE)
    requires Unreserved(a, QUERY_TABLE) && Unreserved(x, QUERY_TABLE) && Unreserved(b, QUERY_TABLE)
    requires p.path == Some(path) && p.queries == [Query(a, Some(x)), Query(b, None)] && p.fragment == Some(fragment)
    ensures PathTail(p) == path + Ascii("?") + a + Ascii("=") + x + Ascii("&") + b + Ascii("#") + fragment
  {
    hide Unreserved, Escaped, Ascii;
    WrittenAsIs(path, PATH_TABLE);
    WrittenAsIs(a, QUERY_TABLE);
    WrittenAsIs(x, QUERY_TABLE);
    WrittenAsIs(b, QUERY_TABLE);
    WrittenAsIs(fragment, FRAGMENT_TABLE);
    SpelledMarks();
    var q, r := Query(a, Some(x)), Query(b, None);
    assert [q, r][1..] == [r];
    assert JoinedQueries([r]) == b;
    assert JoinedQueries([q, r]) == a + ([EQUALS] + x) + ([AMPERSAND] + b);
  }

  lemma UsualFront(p: Parts, scheme: Bytes, user: Bytes, host: Bytes, port: Bytes)
    requires Unreserved(scheme, SCHEME_TABLE) && Unreserved(user, USERINFO_TABLE) && Unreserved(host, HOST_TABLE)
    requires Unreserved(port, PORT_TABLE)
    requires p.scheme == Some(scheme) && p.userinfo == Some(user) && p.host == Some(host) && p.port == Some(port)
    ensures Text(p) == scheme + Ascii("://") + user + Ascii("@") + host + Ascii(":") + port + PathTail(p)
  {
    hide Unreserved, Escaped, Ascii, PathTail;
    WrittenAsIs(scheme, SCHEME_TABLE);
    WrittenAsIs(user, USERINFO_TABLE);
    WrittenAsIs(host, HOST_TABLE);
    WrittenAsIs(port, PORT_TABLE);
    SpelledMarks();
  }

  /** Parts of unreserved characters are put together as everybody writes them. */
  lemma UsualText(scheme: Bytes, user: Bytes, host: Bytes, port: Bytes, path: Bytes, a: Bytes, x: Bytes, b: Bytes, fragment: Bytes)
    requires Unreserved(scheme, SCHEME_TABLE) && Unreserved(user, USERINFO_TABLE) && Unreserved(host, HOST_TABLE)
    requires Unreserved(port, PORT_TABLE) && Unreserved(path, PATH_TABLE) && Unreserved(fragment, FRAGMENT_TABLE)
    requires Unreserved(a, QUERY_TABLE) && Unreserved(x, QUERY_TABLE) && Unreserved(b, QUERY_TABLE)
    ensures Text(Parts(Some(scheme), Some(user), Some(host), Some(port), Some(path), [Query(a, Some(x)), Query(b, None)], Some(fragment)))
         == scheme + Ascii("://") + user + Ascii("@") + host + Ascii(":") + port
            + (path + Ascii("?") + a + Ascii("=") + x + Ascii("&") + b + Ascii("#") + fragment)
    ensures Text(NO_PARTS.(path := Some(path))) == path && Text(NO_PARTS) == []
  {
    hide Unreserved, Ascii, PathTail, SchemeTail;
    var p := Parts(Some(scheme), Some(user), Some(host), Some(port), Some(path), [Query(a, Some(x)), Query(b, None)], Some(fragment));
    UsualFront(p, scheme, user, host, port);
    UsualTail(p, path, a, x, b, fragment);
  }

  lemma SpelledMarks()
    ensures Ascii("://") == [COLON] + [SLASH, SLASH] && Ascii("@") == [AT] && Ascii(":") == [COLON] && Ascii("?") == [QUESTION]
    ensures Ascii("=") == [EQUALS] && Ascii("&") == [AMPERSAND] && Ascii("#") == [HASH]
  {
  }

  // ---------- which parts a text has ----------

  /** A colon with none of the others before it. */
  predicate SchemeEnds(s: Bytes, i: nat) {
    i < |s| && s[i] as char == ':' && forall j :: 0 <= j < i ==> s[j] as char !in {':', '/', '?', '#'}
  }

  predicate Drive(s: Bytes) {
    |s| > 2 && ('A' <= s[0] as char <= 'Z' || 'a' <= s[0] as char <= 'z') && s[1] as char == ':' && s[2] as char == '\\'
  }

  lemma FirstIs(s: Bytes, d: set<byte>, i: nat)
    requires i < |s| && s[i] in d && forall j :: 0 <= j < i ==> s[j] !in d
    ensures FirstIn(s, d) == i
  {
  }

  lemma DriveIs(s: Bytes)
    ensures Drive(s) <==> |s| > 2 && IsLetter(s[0]) && s[1] == COLON && Starts(s[2..], BACKSLASH)
  {
  }

  /** What the parse goes on with once the scheme, if there is one, is cut off. */
  lemma SchemeIff(s: Bytes)
    ensures forall i: nat :: !Drive(s) && SchemeEnds(s, i) ==>
              ParseText(s) == ParseAfterScheme(s[i + 1..], NO_PARTS.(scheme := Some(Lower(Piece(s[..i])))))
    ensures Drive(s) ==> ParseText(s) == NO_PARTS.(path := Some(s))
    ensures !Drive(s) && !(exists i: nat :: SchemeEnds(s, i)) ==> ParseText(s) == ParseAfterScheme(s, NO_PARTS)
  {
    hide ParseAfterScheme, Piece, Lower, IsLetter;
    var m := FirstIn(s, SCHEME_DELIMITERS);
    DelimitersSpelled();
    DriveIs(s);
    assert Starts(s[m..], COLON) <==> m < |s| && s[m] == COLON;
    assert Starts(s[m..], COLON) <==> SchemeEnds(s, m);
    forall i: nat | SchemeEnds(s, i) ensures i == m { FirstIs(s, SCHEME_DELIMITERS, i); }
    hide Starts;
    if Drive(s) { assert SchemeEnds(s, 1) by { assert s[0] as char !in {':', '/', '?', '#'}; } }
  }

  lemma DelimitersSpelled()
    ensures forall c: byte :: c in SCHEME_DELIMITERS <==> c as char in {':', '/', '?', '#'}
    ensures forall c: byte :: c in NETWORK_DELIMITERS <==> c as char in {'@', '/', '?', '#'}
    ensures forall c: byte :: c in HOST_PORT_DELIMITERS <==> c as char in {'/', '?', '#'}
    ensures forall c: byte :: c in PATH_DELIMITERS <==> c as char in {'?', '#'}
    ensures forall c: byte :: c in QUERY_DELIMITERS <==> c as char == '#'
    ensures forall c: byte :: c in SEPARATORS <==> c as char in {'&', ';'}
  {
  }

  lemma HashBehind(s: Bytes, d: set<byte>)
    requires HASH in d
    ensures HASH in s <==> HASH in s[FirstIn(s, d)..]
  {
    var m := FirstIn(s, d);
    assert s == s[..m] + s[m..] && HASH !in s[..m];
  }

  lemma FragmentThere(s: Bytes)
    ensures s == [] || s[0] == HASH ==> (ParseFragment(s).Some? <==> HASH in s)
  {
    hide Piece;
  }

  /** What follows the path: a number sign, or queries and then perhaps one. */
  lemma TailFragment(s: Bytes)
    requires s == [] || s[0] == HASH || s[0] == QUESTION
    ensures !Starts(s, QUESTION) ==> (ParseFragment(s).Some? <==> HASH in s)
    ensures Starts(s, QUESTION) ==> (ParseFragment(s[1 + FirstIn(s[1..], QUERY_DELIMITERS)..]).Some? <==> HASH in s)
  {
    hide ParseFragment;
    FragmentThere(s);
    if Starts(s, QUESTION) {
      var t := s[1..];
      var n := FirstIn(t, QUERY_DELIMITERS);
      HashBehind(t, QUERY_DELIMITERS);
      FragmentThere(t[n..]);
      assert s == [QUESTION] + t;
      assert s[1 + n..] == t[n..];
      assert t[n..] == [] || t[n..][0] == t[n];
    }
  }

  lemma PathKeeps(s: Bytes, p: Parts)
    requires p.fragment.None?
    ensures var q := ParsePath(s, p);
            q.scheme == p.scheme && q.host == p.host && q.userinfo == p.userinfo && q.port == p.port
            && (q.fragment.Some? <==> HASH in s)
  {
    var m := FirstIn(s, PATH_DELIMITERS);
    HashBehind(s, PATH_DELIMITERS);
    assert s[m..] == [] || s[m..][0] == s[m];
    hide Piece, ParseQueries, FirstIn, ParseFragment;
    TailFragment(s[m..]);
  }

  lemma HostKeeps(s: Bytes, m: nat, p: Parts)
    requires m < |s| && s[m] == AT && p.fragment.None?
    ensures var e := m + 1 + FirstIn(s[m + 1..], HOST_PORT_DELIMITERS);
            var q := ParsePath(s[e..], WithHost(s[m + 1..e], p));
            q.scheme == p.scheme && q.host.Some? && (q.fragment.Some? <==> HASH in s[m..])
  {
    hide ParsePath, HostOf, PortOf, FirstIn;
    var b := s[m + 1..];
    var e := FirstIn(b, HOST_PORT_DELIMITERS);
    HashBehind(b, HOST_PORT_DELIMITERS);
    assert s[m..] == [AT] + b;
    assert s[m + 1 + e..] == b[e..];
    PathKeeps(b[e..], WithHost(s[m + 1..m + 1 + e], p));
  }

  lemma AuthorityKeeps(s: Bytes, p: Parts)
    requires p.fragment.None?
    ensures var q := ParseAuthority(s, p); q.scheme == p.scheme && q.host.Some? && (q.fragment.Some? <==> HASH in s)
  {
    hide Piece, ParsePath, HostOf, PortOf, FirstIn;
    var m := FirstIn(s, NETWORK_DELIMITERS);
    HashBehind(s, NETWORK_DELIMITERS);
    if Starts(s[m..], AT) {
      assert s[m] == s[m..][0];
      HostKeeps(s, m, p.(userinfo := Some(Piece(s[..m]))));
    } else {
      PathKeeps(s[m..], WithHost(s[..m], p));
    }
  }

  /** Two slashes bring a host and nothing else does, and a number sign a fragment. */
  lemma KeepsParts(s: Bytes, p: Parts)
    requires p.host.None? && p.fragment.None?
    ensures var q := ParseAfterScheme(s, p);
            q.scheme == p.scheme && (q.host.Some? <==> |s| >= 2 && s[0] as char == '/' && s[1] as char == '/')
            && (q.fragment.Some? <==> HASH in s)
  {
    hide ParsePath, ParseAuthority;
    if StartsAuthority(s) {
      assert s == [SLASH, SLASH] + s[2..];
      AuthorityKeeps(s[2..], p);
    } else {
      PathKeeps(s, p);
    }
  }

  /** What is before the first colon is a scheme unless a slash, a question mark or a number sign comes
      first or it is a drive; the two slashes behind it bring a host; and a number sign anywhere brings
      a fragment. */
  lemma PartsPresent(s: Bytes, i: nat)
    ensures Drive(s) ==> ParseText(s) == NO_PARTS.(path := Some(s))
    ensures !Drive(s) ==> (ParseText(s).scheme.Some? <==> exists j: nat :: SchemeEnds(s, j))
    ensures !Drive(s) ==> (ParseText(s).fragment.Some? <==> HASH in s)
    ensures !Drive(s) && SchemeEnds(s, i) ==>
              (ParseText(s).host.Some? <==> |s| >= i + 3 && s[i + 1] as char == '/' && s[i + 2] as char == '/')
    ensures !Drive(s) && !(exists j: nat :: SchemeEnds(s, j)) ==>
              (ParseText(s).host.Some? <==> |s| >= 2 && s[0] as char == '/' && s[1] as char == '/')
  {
    hide ParseText, ParseAfterScheme, Drive, Piece, Lower;
    SchemeIff(s);
    if Drive(s) {
    } else if j: nat :| SchemeEnds(s, j) {
      OneEnd(s, i, j);
      KeepsParts(s[j + 1..], NO_PARTS.(scheme := Some(Lower(Piece(s[..j])))));
      assert s == s[..j] + [s[j]] + s[j + 1..] && HASH !in s[..j];
    } else {
      KeepsParts(s, NO_PARTS);
    }
  }

  lemma OneEnd(s: Bytes, i: nat, j: nat)
    requires SchemeEnds(s, j)
    ensures SchemeEnds(s, i) ==> i == j
  {
  }
}
