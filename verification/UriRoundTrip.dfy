/** Building a URI and parsing it again: exactly which parts come back as they were. */
module UriRoundTrip {
  import opened Basics
  import opened UriText

  lemma PlainDelimiters()
    ensures Plain(SCHEME_DELIMITERS) && Plain(NETWORK_DELIMITERS) && Plain(HOST_PORT_DELIMITERS)
    ensures Plain(PATH_DELIMITERS) && Plain(QUERY_DELIMITERS) && Plain({CLOSE}) && Plain({COLON}) && Plain({AT})
  {
  }

  predicate EscapesAll(t: Table, d: set<byte>) {
    forall c :: c in d ==> Reserved(c, t)
  }

  lemma SchemeTable()
    ensures EscapesAll(SCHEME_TABLE, SCHEME_DELIMITERS + {PERCENT})
  {
    assert Bit(0xFC0097FF, 3) && Bit(0xFC0097FF, 5) && Bit(0xFC0097FF, 15) && Bit(0xFC0097FF, 26) && Bit(0xFC0097FF, 31);
    hide Bit;
  }

  lemma UserinfoTable()
    ensures EscapesAll(USERINFO_TABLE, NETWORK_DELIMITERS + {PERCENT})
  {
    assert Bit(0xD000802D, 3) && Bit(0xD000802D, 5) && Bit(0xD000802D, 15) && Bit(0xD000802D, 31) && Bit(0x78000001, 0);
    hide Bit;
  }

  lemma HostTable()
    ensures EscapesAll(HOST_TABLE, NETWORK_DELIMITERS + {PERCENT})
    ensures !Reserved(OPEN, HOST_TABLE) && !Reserved(CLOSE, HOST_TABLE) && !Reserved(COLON, HOST_TABLE)
  {
    assert Bit(0xD000802D, 3) && Bit(0xD000802D, 5) && Bit(0xD000802D, 15) && !Bit(0xD000802D, 26) && Bit(0xD000802D, 31);
    assert Bit(0x50000001, 0) && !Bit(0x50000001, 27) && !Bit(0x50000001, 29);
    hide Bit;
  }

  lemma PortTable()
    ensures EscapesAll(PORT_TABLE, NETWORK_DELIMITERS + {PERCENT, CLOSE})
  {
    assert Bit(0xFC009FFF, 3) && Bit(0xFC009FFF, 5) && Bit(0xFC009FFF, 15) && Bit(0xFC009FFF, 31);
    assert Bit(0x78000001, 0) && Bit(0x78000001, 29);
    hide Bit;
  }

  lemma PathTable()
    ensures EscapesAll(PATH_TABLE, PATH_DELIMITERS + {PERCENT, BACKSLASH}) && !Reserved(SLASH, PATH_TABLE)
  {
    assert Bit(0xD000002D, 3) && Bit(0xD000002D, 5) && !Bit(0xD000002D, 15) && Bit(0xD000002D, 31) && Bit(0x78000000, 28);
    hide Bit;
  }

  lemma HashTables()
    ensures Reserved(HASH, QUERY_TABLE) && Reserved(PERCENT, FRAGMENT_TABLE)
  {
    assert Bit(0x5000002D, 3) && Bit(0x5000002D, 5);
    hide Bit;
  }

  // ---------- from the end of the text to its start ----------

  lemma FragmentInverse(f: Option<Bytes>)
    requires MaybeCString(f)
    ensures ParseFragment(Marked([HASH], f, FRAGMENT_TABLE)) == f
    ensures Marked([HASH], f, FRAGMENT_TABLE) == [] || Marked([HASH], f, FRAGMENT_TABLE)[0] == HASH
  {
    HashTables();
    hide Reserved, Escaped, Piece;
    if f.Some? {
      EscapedPiece(f.value, FRAGMENT_TABLE);
      assert ([HASH] + Escaped(f.value, FRAGMENT_TABLE))[1..] == Escaped(f.value, FRAGMENT_TABLE);
    }
  }

  lemma NoHashInQueries(qs: seq<Query>)
    ensures forall i :: 0 <= i < |JoinedQueries(qs)| ==> JoinedQueries(qs)[i] !in QUERY_DELIMITERS
  {
    PlainDelimiters();
    HashTables();
    hide Reserved, Escaped, JoinedQueries;
    EscapedRaw(qs);
    EscapedAvoids(RawJoined(qs), QUERY_TABLE, QUERY_DELIMITERS);
  }

  /** The path an optional path reads back as: an empty one is lost. */
  function PathKept(p: Option<Bytes>): Option<Bytes> {
    if p == Some([]) then None else p
  }

  lemma PathPart(path: Option<Bytes>)
    requires MaybeCString(path)
    ensures var a := Marked([], path, PATH_TABLE);
            && (forall i :: 0 <= i < |a| ==> a[i] !in PATH_DELIMITERS)
            && PathKept(path) == (if a != [] then Some(Piece(a)) else None)
  {
    PlainDelimiters();
    PathTable();
    hide Reserved, Escaped, Piece;
    if path.Some? {
      EscapedAvoids(path.value, PATH_TABLE, PATH_DELIMITERS);
      EscapedPiece(path.value, PATH_TABLE);
      EscapedEmpty(path.value, PATH_TABLE);
      assert [] + Escaped(path.value, PATH_TABLE) == Escaped(path.value, PATH_TABLE);
    }
  }

  lemma QueryPart(qs: seq<Query>, f: Bytes)
    requires f == [] || f[0] == HASH
    ensures var tail := [QUESTION] + JoinedQueries(qs) + f;
            var n := 1 + FirstIn(tail[1..], QUERY_DELIMITERS);
            tail[1..n] == JoinedQueries(qs) && tail[n..] == f
  {
    hide JoinedQueries, FirstIn;
    var q := JoinedQueries(qs);
    var tail := [QUESTION] + q + f;
    assert tail[1..] == q + f;
    NoHashInQueries(qs);
    FirstAfter(q, f, QUERY_DELIMITERS);
  }

  lemma PathTailParsed(p: Parts, base: Parts)
    requires CStrings(p) && base.queries == []
    ensures ParsePath(PathTail(p), base)
         == base.(path := PathKept(p.path), queries := ParseQueries(JoinedQueries(p.queries)), fragment := p.fragment)
  {
    hide Escaped, Piece, JoinedQueries, ParseFragment, ParseQueries, FirstIn, Marked, PathKept;
    var a, f, tail := Marked([], p.path, PATH_TABLE), Marked([HASH], p.fragment, FRAGMENT_TABLE), QueryTail(p);
    FragmentInverse(p.fragment);
    PathPart(p.path);
    QueryPart(p.queries, f);
    ParseStep([]);
    EmptyQueries();
    assert p.queries == [] ==> tail == f;
    FirstAfter(a, tail, PATH_DELIMITERS);
  }

  lemma EmptyQueries()
    ensures JoinedQueries([]) == []
  {
  }

  // ---------- the authority ----------

  lemma PieceThenMore(h: Bytes, c: byte, more: Bytes)
    requires IsCString(h) && c != 0 && c != PERCENT
    ensures |Piece(Escaped(h, HOST_TABLE) + ([c] + more))| > |h|
  {
    HostTable();
    hide Reserved, Escaped;
    EscapeUndone(h, HOST_TABLE, [c] + more);
    CStringKeeps(h + [c], Unescaped(([c] + more)[1..]));
    assert Unescaped([c] + more) == [c] + Unescaped(([c] + more)[1..]);
    assert h + ([c] + Unescaped(([c] + more)[1..])) == (h + [c]) + Unescaped(([c] + more)[1..]);
  }

  lemma {:induction false} CStringKeeps(a: Bytes, b: Bytes)
    requires IsCString(a)
    ensures a <= CString(a + b)
  {
    if a == [] {
    } else {
      CStringKeeps(a[1..], b);
      assert (a + b)[1..] == a[1..] + b;
    }
  }

  lemma PortInverse(port: Option<Bytes>)
    requires MaybeCString(port)
    ensures var t := Marked([COLON], port, PORT_TABLE);
            && (t == [] || t[0] == COLON) && FirstIn(t, {CLOSE}) == |t|
            && (if Starts(t, COLON) then Some(Piece(t[1..])) else None) == port
  {
    PlainDelimiters();
    PortTable();
    hide Reserved, Escaped, Piece;
    var t := Marked([COLON], port, PORT_TABLE);
    if port.Some? {
      EscapedPiece(port.value, PORT_TABLE);
      EscapedAvoids(port.value, PORT_TABLE, {CLOSE});
      assert t[1..] == Escaped(port.value, PORT_TABLE);
      assert forall i :: 0 <= i < |t| ==> t[i] == (if i == 0 then COLON else t[1..][i - 1]);
      FirstInIs(t, {CLOSE}, |t|);
    } else {
      FirstInIs(t, {CLOSE}, 0);
    }
  }

  lemma HostStart(h: Bytes, port: Option<Bytes>)
    ensures Starts(HostText(h, port), OPEN) <==> Starts(h, OPEN)
  {
    HostTable();
    hide Reserved;
    if h != [] { assert Escaped(h, HOST_TABLE)[0] == EscapedByte(h[0], HOST_TABLE)[0]; }
  }

  lemma OneEscaped(c: byte, t: Table)
    ensures Escaped([c], t) == EscapedByte(c, t)
  {
    assert [c][1..] == [];
  }

  /** A host byte that no host escapes is found behind the escaped text of what comes before. */
  lemma HostPrefix(h: Bytes, rest: Bytes, c: byte)
    requires c in {CLOSE, COLON} && FirstIn(h, {c}) < |h|
    ensures var n := FirstIn(h, {c}); var e := Escaped(h[..n], HOST_TABLE); var s := Escaped(h, HOST_TABLE) + rest;
            && |e| < |s| && s[..|e|] == e && FirstIn(s, {c}) == |e| && s[..|e| + 1] == Escaped(h[..n + 1], HOST_TABLE)
  {
    PlainDelimiters();
    HostTable();
    hide Bit, Reserved, Escaped, FirstIn, EscapesAll, Plain;
    var n := FirstIn(h, {c});
    var x := Escaped(h, HOST_TABLE);
    FirstInEscaped(h, HOST_TABLE, {c});
    var e := Escaped(h[..n], HOST_TABLE);
    EscapedJoin(h[..n], [c], HOST_TABLE);
    OneEscaped(c, HOST_TABLE);
    assert h[..n] + [c] == h[..n + 1];
    FoundAgain(x, rest, c);
    assert (x + rest)[..|e| + 1] == e + [c];
  }

  lemma FoundAgain(x: Bytes, rest: Bytes, c: byte)
    ensures FirstIn(x, {c}) < |x| ==> FirstIn(x + rest, {c}) == FirstIn(x, {c})
    ensures FirstIn(x, {c}) == |x| && FirstIn(rest, {c}) == |rest| ==> FirstIn(x + rest, {c}) == |x + rest|
    ensures FirstIn(x, {c}) == |x| && (rest == [] || rest[0] == c) ==> FirstIn(x + rest, {c}) == |x|
  {
    hide FirstIn;
    if FirstIn(x, {c}) < |x| {
      FirstInIs(x + rest, {c}, FirstIn(x, {c}));
    } else {
      if FirstIn(rest, {c}) == |rest| { FirstInIs(x + rest, {c}, |x + rest|); }
      if rest == [] || rest[0] == c { FirstInIs(x + rest, {c}, |x|); }
    }
  }

  lemma HostWithout(h: Bytes, c: byte)
    requires c in {CLOSE, COLON} && FirstIn(h, {c}) == |h|
    ensures FirstIn(Escaped(h, HOST_TABLE), {c}) == |Escaped(h, HOST_TABLE)|
  {
    PlainDelimiters();
    HostTable();
    hide Bit, Reserved, Escaped, FirstIn, EscapesAll, Plain;
    FirstInEscaped(h, HOST_TABLE, {c});
    assert h[..|h|] == h;
  }

  /** The host and port read back exactly when the host is in lower case and stands. */
  lemma HostInverse(h: Bytes, port: Option<Bytes>)
    requires IsCString(h) && MaybeCString(port)
    ensures var s := HostText(h, port);
            (HostOf(s) == h && PortOf(s) == port) <==> (NoUpper(h) && HostStands(h, port))
  {
    HostTable();
    hide Reserved, Escaped, FirstIn, Piece, Lower, NoUpper;
    var s, t, x := HostText(h, port), Marked([COLON], port, PORT_TABLE), Escaped(h, HOST_TABLE);
    var c := if Starts(h, OPEN) then CLOSE else COLON;
    var n := FirstIn(h, {c});
    PortInverse(port);
    HostStart(h, port);
    EscapedPiece(h, HOST_TABLE);
    NoUpperIsLower(h);
    if n == |h| {
      HostWithout(h, c);
      FoundAgain(x, t, c);
      assert s[|x|..] == t && s[..|x|] == x;
      if c == CLOSE {
        assert HostEnd(s) == |s| && s[..|s|] == s;
        if port.Some? {
          PieceThenMore(h, COLON, Escaped(port.value, PORT_TABLE));
        } else {
          assert s == x;
        }
      }
    } else {
      HostPrefix(h, t, c);
      EscapedPiece(h[..n], HOST_TABLE);
      EscapedPiece(h[..n + 1], HOST_TABLE);
      if n + 1 == |h| {
        assert h[..n + 1] == h;
        assert s[|x|..] == t;
      }
    }
  }

  lemma PathTailStart(p: Parts)
    ensures var t := PathTail(p);
            && (p.path.None? || p.path.value == [] ==> t == [] || t[0] in PATH_DELIMITERS)
            && (p.path.Some? && p.path.value != [] ==>
                  t != [] && (t[0] == SLASH <==> p.path.value[0] == SLASH) && t[0] != BACKSLASH
                  && (StartsAuthority(t) <==> StartsAuthority(p.path.value)))
  {
    PathTable();
    hide Bit, Reserved, JoinedQueries;
    if p.path.Some? && p.path.value != [] {
      var v, q := p.path.value, QueryTail(p);
      var t := EscapedByte(v[0], PATH_TABLE) + (Escaped(v[1..], PATH_TABLE) + q);
      assert PathTail(p) == t;
      assert v[0] != SLASH ==> t[0] != SLASH;
      if v[0] == SLASH {
        assert t[1..] == Escaped(v[1..], PATH_TABLE) + q;
        if |v| > 1 {
          var w := EscapedByte(v[1], PATH_TABLE) + (Escaped(v[1..][1..], PATH_TABLE) + q);
          assert t[1..] == w;
        } else {
          assert t[1..] == q;
        }
      }
    }
  }

  lemma HostTextAvoids(h: Bytes, port: Option<Bytes>)
    ensures forall i :: 0 <= i < |HostText(h, port)| ==> HostText(h, port)[i] !in NETWORK_DELIMITERS
  {
    PlainDelimiters();
    HostTable();
    PortTable();
    hide Bit, Reserved, Escaped, Plain;
    EscapedAvoids(h, HOST_TABLE, NETWORK_DELIMITERS);
    if port.Some? { EscapedAvoids(port.value, PORT_TABLE, NETWORK_DELIMITERS); }
  }

  lemma AuthorityPieces(u: Bytes, h: Bytes, t: Bytes, base: Parts)
    requires forall i :: 0 <= i < |u| ==> u[i] !in NETWORK_DELIMITERS
    requires forall i :: 0 <= i < |h| ==> h[i] !in HOST_PORT_DELIMITERS
    requires t == [] || t[0] in HOST_PORT_DELIMITERS
    ensures ParseAuthority(u + [AT] + h + t, base) == ParsePath(t, WithHost(h, base.(userinfo := Some(Piece(u)))))
  {
    hide FirstIn, Piece, ParsePath, WithHost;
    var s, m := u + [AT] + h + t, |u|;
    assert s == u + ([AT] + h + t);
    FirstAfter(u, [AT] + h + t, NETWORK_DELIMITERS);
    assert s[m + 1..] == h + t;
    FirstAfter(h, t, HOST_PORT_DELIMITERS);
    assert s[m + 1..m + 1 + |h|] == h && s[m + 1 + |h|..] == t;
  }

  lemma AuthorityParsed(p: Parts, base: Parts)
    requires CStrings(p) && Placed(p) && p.host.Some? && base.userinfo.None?
    ensures var h := HostText(p.host.value, p.port);
            ParseAuthority(UserinfoText(p) + h + PathTail(p), base)
            == ParsePath(PathTail(p), WithHost(h, base.(userinfo := p.userinfo)))
  {
    hide Bit, Reserved, EscapesAll, Escaped, FirstIn, Piece, ParsePath, WithHost, HostText, PathTail, ParseAuthority;
    var h, t := HostText(p.host.value, p.port), PathTail(p);
    HostTextAvoids(p.host.value, p.port);
    PathTailStart(p);
    if p.userinfo.Some? {
      PlainDelimiters();
      UserinfoTable();
      EscapesAt(USERINFO_TABLE, NETWORK_DELIMITERS);
      EscapedAvoids(p.userinfo.value, USERINFO_TABLE, NETWORK_DELIMITERS);
      EscapedPiece(p.userinfo.value, USERINFO_TABLE);
      AuthorityPieces(Escaped(p.userinfo.value, USERINFO_TABLE), h, t, base);
    } else {
      assert UserinfoText(p) + h + t == h + t;
      NoUserinfo(h, t, base);
    }
  }

  lemma EscapesAt(t: Table, d: set<byte>)
    requires EscapesAll(t, d + {PERCENT})
    ensures Reserved(PERCENT, t) && forall c :: c in d ==> Reserved(c, t)
  {
  }

  lemma NoUserinfo(h: Bytes, t: Bytes, base: Parts)
    requires forall i :: 0 <= i < |h| ==> h[i] !in NETWORK_DELIMITERS
    requires t == [] || t[0] in HOST_PORT_DELIMITERS
    ensures ParseAuthority(h + t, base) == ParsePath(t, WithHost(h, base))
  {
    hide FirstIn, Piece, ParsePath, WithHost;
    FirstAfter(h, t, NETWORK_DELIMITERS);
  }

  lemma SchemeParsed(p: Parts)
    requires CStrings(p) && p.scheme.Some?
    ensures ParseText(Text(p)) == ParseAfterScheme(SchemeTail(p), NO_PARTS.(scheme := Some(Lower(p.scheme.value))))
  {
    hide Bit, Reserved, Escaped, FirstIn, Piece, ParseAfterScheme, PathTail, Lower;
    PlainDelimiters();
    SchemeTable();
    var u, t := Escaped(p.scheme.value, SCHEME_TABLE), SchemeTail(p);
    EscapedAvoids(p.scheme.value, SCHEME_TABLE, SCHEME_DELIMITERS);
    EscapedPiece(p.scheme.value, SCHEME_TABLE);
    assert Text(p) == u + ([COLON] + t);
    FirstAfter(u, [COLON] + t, SCHEME_DELIMITERS);
    assert Text(p)[|u| + 1..] == t;
    PathTailStart(p);
    assert !Starts(t, BACKSLASH);
  }

  /** What any properly placed parts read back as. */
  lemma Reparsed(p: Parts)
    requires CStrings(p) && p.scheme.Some? && Placed(p)
    ensures var r := ParseText(Text(p));
            && r.scheme == Some(Lower(p.scheme.value)) && r.userinfo == p.userinfo
            && r.host == (if p.host.Some? then Some(HostOf(HostText(p.host.value, p.port))) else None)
            && r.port == (if p.host.Some? then PortOf(HostText(p.host.value, p.port)) else None)
            && r.path == PathKept(p.path) && r.fragment == p.fragment
            && r.queries == ParseQueries(JoinedQueries(p.queries))
  {
    hide Escaped, FirstIn, Piece, ParsePath, ParseAuthority, PathTail, ParseQueries, JoinedQueries, HostText, HostOf, PortOf, Lower;
    var base := NO_PARTS.(scheme := Some(Lower(p.scheme.value)));
    SchemeParsed(p);
    if p.host.Some? {
      var h := HostText(p.host.value, p.port);
      AuthorityParsed(p, base);
      PathTailParsed(p, WithHost(h, base.(userinfo := p.userinfo)));
      var t := SchemeTail(p);
      assert t == [SLASH, SLASH] + (UserinfoText(p) + h + PathTail(p));
      assert t[1..][0] == SLASH && t[2..] == UserinfoText(p) + h + PathTail(p);
    } else {
      PathTailParsed(p, base);
      PathTailStart(p);
      assert SchemeTail(p) == PathTail(p);
    }
  }

  lemma SlashFirst(s: Bytes)
    requires Starts(s, SLASH)
    ensures Starts(Piece(s), SLASH)
  {
  }

  lemma PathShape(s: Bytes, base: Parts)
    requires s == [] || s[0] in HOST_PORT_DELIMITERS
    ensures var r := ParsePath(s, base); r.path.Some? ==> Starts(r.path.value, SLASH)
  {
    hide FirstIn, Piece;
    var m := FirstIn(s, PATH_DELIMITERS);
    if m > 0 { SlashFirst(s[..m]); }
  }

  /** Whatever was parsed, user information and port come only with a host, and a path after a
      host starts with a slash. */
  lemma ParsedPlaced(s: Bytes)
    ensures var r := ParseText(s);
            && (r.host.None? ==> r.userinfo.None? && r.port.None?)
            && (r.host.Some? && r.path.Some? ==> Starts(r.path.value, SLASH))
            && (r.scheme.Some? ==> NoUpper(r.scheme.value)) && (r.host.Some? ==> NoUpper(r.host.value))
  {
    hide FirstIn, Piece, ParseAfterScheme, NoUpper, Lower;
    var m := FirstIn(s, SCHEME_DELIMITERS);
    if Starts(s[m..], COLON) {
      LowerIsLower(Piece(s[..m]));
      RestPlaced(s[m + 1..], NO_PARTS.(scheme := Some(Lower(Piece(s[..m])))));
    } else {
      RestPlaced(s, NO_PARTS);
    }
  }

  lemma RestPlaced(t: Bytes, base: Parts)
    requires base.userinfo.None? && base.host.None? && base.port.None?
    ensures var r := ParseAfterScheme(t, base);
            && r.scheme == base.scheme && (r.host.None? ==> r.userinfo.None? && r.port.None?)
            && (r.host.Some? ==> NoUpper(r.host.value)) && (r.host.Some? && r.path.Some? ==> Starts(r.path.value, SLASH))
  {
    hide ParsePath, ParseAuthority, NoUpper;
    if StartsAuthority(t) {
      AuthorityShape(t[2..], base);
    } else {
      KeepsAuthority(t, base);
    }
  }

  lemma KeepsAuthority(s: Bytes, base: Parts)
    ensures var r := ParsePath(s, base);
            r.scheme == base.scheme && r.userinfo == base.userinfo && r.host == base.host && r.port == base.port
  {
  }

  lemma LowerIsLower(s: Bytes)
    ensures NoUpper(Lower(s))
  {
  }

  lemma AuthorityShape(a: Bytes, base: Parts)
    ensures var r := ParseAuthority(a, base);
            && r.scheme == base.scheme && r.host.Some? && NoUpper(r.host.value)
            && (r.path.Some? ==> Starts(r.path.value, SLASH))
  {
    hide FirstIn, Piece, ParsePath, HostEnd, Lower, NoUpper;
    var m := FirstIn(a, NETWORK_DELIMITERS);
    var e := if Starts(a[m..], AT) then m + 1 + FirstIn(a[m + 1..], HOST_PORT_DELIMITERS) else m;
    var h := if Starts(a[m..], AT) then a[m + 1..e] else a[..m];
    var p := WithHost(h, if Starts(a[m..], AT) then base.(userinfo := Some(Piece(a[..m]))) else base);
    PathShape(a[e..], p);
    KeepsAuthority(a[e..], p);
    LowerIsLower(Piece(h[..HostEnd(h)]));
  }

  /** With a scheme, parsing what was built gives the parts back exactly when they are normal: scheme
      and host in lower case, a host that can stand in the text, user information and port only with a
      host, a path that is absent or non-empty and placed where it cannot be misread, and
      queries that can stand. */
  lemma SchemeInverse(p: Parts)
    requires CStrings(p) && p.scheme.Some?
    ensures ParseText(Text(p)) == p <==> Normal(p)
  {
    hide ParseText, Text, HostText, HostOf, PortOf, ParseQueries, JoinedQueries, HostStands, QueryStands, NoUpper, Lower;
    if Placed(p) {
      Reparsed(p);
      NoUpperIsLower(p.scheme.value);
      if p.host.Some? { HostInverse(p.host.value, p.port); }
      QueriesInverse(p.queries);
    } else {
      ParsedPlaced(Text(p));
      if p.host.None? && p.path.Some? && StartsAuthority(p.path.value) { DoubleSlashIsHost(p); }
    }
  }

  lemma DoubleSlashIsHost(p: Parts)
    requires CStrings(p) && p.scheme.Some? && p.host.None? && p.path.Some? && StartsAuthority(p.path.value)
    ensures ParseText(Text(p)).host.Some?
  {
    hide Escaped, FirstIn, Piece, ParseAuthority, PathTail;
    SchemeParsed(p);
    PathTailStart(p);
    assert SchemeTail(p) == PathTail(p);
    AuthorityShape(PathTail(p)[2..], NO_PARTS.(scheme := Some(Lower(p.scheme.value))));
  }

  // ---------- without a scheme ----------

  lemma {:induction false} UnescapedSame(s: Bytes)
    ensures |Unescaped(s)| <= |s| && (Unescaped(s) == s <==> NoEscapes(s))
    decreases |s|
  {
    if s == [] {
    } else if s[0] == PERCENT && |s| > 2 {
      UnescapedSame(s[3..]);
    } else {
      UnescapedSame(s[1..]);
      assert s == [s[0]] + s[1..];
      assert NoEscapes(s) ==> NoEscapes(s[1..]) by { TailPlain(s); }
      if NoEscapes(s[1..]) {
        forall i | 0 <= i && i + 2 < |s| ensures s[i] != PERCENT { if i > 0 { assert s[1..][i - 1] == s[i]; } }
      }
    }
  }

  lemma TailPlain(s: Bytes)
    requires s != []
    ensures NoEscapes(s) ==> NoEscapes(s[1..])
  {
    if NoEscapes(s) {
      forall i | 0 <= i && i + 2 < |s[1..]| ensures s[1..][i] != PERCENT { assert s[1..][i] == s[i + 1]; }
    }
  }

  lemma PieceSame(s: Bytes)
    requires IsCString(s)
    ensures Piece(s) == s <==> NoEscapes(s)
  {
    UnescapedSame(s);
    NoZeroIsCString(s);
  }

  lemma PieceShort(s: Bytes)
    ensures |Piece(s)| <= |s|
  {
    UnescapedSame(s);
  }

  /** A parsed path is no longer than its text. */
  lemma PathShort(s: Bytes, base: Parts)
    ensures var r := ParsePath(s, base); r.path.Some? ==> |r.path.value| <= FirstIn(s, PATH_DELIMITERS)
  {
    hide Piece, ParseQueries, ParseFragment;
    PieceShort(s[..FirstIn(s, PATH_DELIMITERS)]);
  }

  lemma AuthorityPathShort(a: Bytes, base: Parts)
    ensures var r := ParseAuthority(a, base); r.path.Some? ==> |r.path.value| <= |a|
  {
    hide ParsePath, FirstIn, Piece, WithHost;
    var m := FirstIn(a, NETWORK_DELIMITERS);
    var e := if Starts(a[m..], AT) then m + 1 + FirstIn(a[m + 1..], HOST_PORT_DELIMITERS) else m;
    var h := if Starts(a[m..], AT) then a[m + 1..e] else a[..m];
    PathShort(a[e..], WithHost(h, if Starts(a[m..], AT) then base.(userinfo := Some(Piece(a[..m]))) else base));
  }

  lemma KeepsScheme(t: Bytes, base: Parts)
    ensures ParseAfterScheme(t, base).scheme == base.scheme
  {
    hide ParsePath, ParseAuthority, NoUpper;
    if StartsAuthority(t) { AuthorityShape(t[2..], base); } else { KeepsAuthority(t, base); }
  }

  /** A path without marks is read as a path. */
  lemma UnmarkedPath(s: Bytes)
    requires IsCString(s)
    ensures ParsePath(s, NO_PARTS) == NO_PARTS.(path := Some(s)) <==> s != [] && QUESTION !in s && HASH !in s && NoEscapes(s)
  {
    hide Piece, ParseQueries, FirstIn;
    var m := FirstIn(s, PATH_DELIMITERS);
    PathShort(s, NO_PARTS);
    PieceSame(s);
    if m == |s| { assert s[..m] == s && s[m..] == []; }
  }

  /** Bare text means itself as a path exactly when it is a plain path. */
  lemma BarePath(s: Bytes)
    requires IsCString(s)
    ensures ParseText(s) == NO_PARTS.(path := Some(s)) <==> PlainPath(s)
    ensures s != [] && ParseText(s).path == Some(s) && ParseText(s).scheme.None? ==> PlainPath(s)
    ensures s == [] ==> ParseText(s) == NO_PARTS
  {
    hide ParsePath, ParseAuthority, Piece, FirstIn, NoEscapes, Lower;
    var m := FirstIn(s, SCHEME_DELIMITERS);
    DriveFound(s);
    if Starts(s[m..], COLON) {
      KeepsScheme(s[m + 1..], NO_PARTS.(scheme := Some(Lower(Piece(s[..m])))));
    } else if StartsAuthority(s) {
      AuthorityPathShort(s[2..], NO_PARTS);
    } else {
      UnmarkedPath(s);
      OnlyPath(s);
    }
  }

  lemma DriveFound(s: Bytes)
    ensures var m := FirstIn(s, SCHEME_DELIMITERS);
            DriveLetter(s) <==> Starts(s[m..], COLON) && m == 1 && IsLetter(s[0]) && Starts(s[2..], BACKSLASH)
  {
    if DriveLetter(s) { FirstInIs(s, SCHEME_DELIMITERS, 1); }
  }

  lemma OnlyPath(s: Bytes)
    requires IsCString(s)
    ensures ParsePath(s, NO_PARTS).path == Some(s) ==> ParsePath(s, NO_PARTS) == NO_PARTS.(path := Some(s))
    ensures s == [] ==> ParsePath(s, NO_PARTS) == NO_PARTS
  {
    hide Piece, ParseQueries, FirstIn;
    PathShort(s, NO_PARTS);
  }

  /** Parsing what was built gives the parts back exactly when they are normal or, without a scheme,
      a plain path alone or nothing. */
  lemma BuildThenParse(p: Parts)
    requires CStrings(p)
    ensures ParseText(Text(p)) == p <==> Rebuilt(p)
  {
    hide ParseText, Normal, PlainPath;
    if p.scheme.Some? {
      SchemeInverse(p);
    } else {
      BarePath(Text(p));
    }
  }

  // ---------- the built text as input ----------

  lemma EscapedIsCString(a: Bytes, t: Table)
    requires IsCString(a)
    ensures IsCString(Escaped(a, t))
  {
    EscapedAvoids(a, t, {0});
  }

  lemma MarkedIsCString(mark: Bytes, a: Option<Bytes>, t: Table)
    requires IsCString(mark) && MaybeCString(a)
    ensures IsCString(Marked(mark, a, t))
  {
    hide Escaped;
    if a.Some? { EscapedIsCString(a.value, t); }
  }

  lemma {:induction false} QueriesAreCString(qs: seq<Query>)
    requires forall q :: q in qs ==> IsCString(q.name) && MaybeCString(q.value)
    ensures IsCString(JoinedQueries(qs))
  {
    hide Escaped;
    if qs == [] {
    } else {
      EscapedIsCString(qs[0].name, QUERY_TABLE);
      MarkedIsCString([EQUALS], qs[0].value, QUERY_TABLE);
      QueriesAreCString(qs[1..]);
    }
  }

  /** What is built from C strings is a C string, so it can be parsed. */
  lemma TextIsCString(p: Parts)
    requires CStrings(p)
    ensures IsCString(Text(p))
  {
    hide Escaped, Marked, JoinedQueries;
    QueriesAreCString(p.queries);
    MarkedIsCString([], p.path, PATH_TABLE);
    MarkedIsCString([HASH], p.fragment, FRAGMENT_TABLE);
    MarkedIsCString([COLON], p.port, PORT_TABLE);
    if p.scheme.Some? { EscapedIsCString(p.scheme.value, SCHEME_TABLE); }
    if p.userinfo.Some? { EscapedIsCString(p.userinfo.value, USERINFO_TABLE); }
    if p.host.Some? { EscapedIsCString(p.host.value, HOST_TABLE); }
  }
}
