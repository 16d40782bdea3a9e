/** The text form of the URIs of containers_uri.c: what building writes, what parsing reads, and
    when the two undo each other. Strings are C strings, so a zero byte ends one. */
module UriText {
  import opened Basics

  const HASH: byte := 35
  const PERCENT: byte := 37
  const AMPERSAND: byte := 38
  const SLASH: byte := 47
  const COLON: byte := 58
  const SEMICOLON: byte := 59
  const EQUALS: byte := 61
  const QUESTION: byte := 63
  const AT: byte := 64
  const OPEN: byte := 91
  const BACKSLASH: byte := 92
  const CLOSE: byte := 93

  const SCHEME_DELIMITERS: set<byte> := {COLON, SLASH, QUESTION, HASH}
  const NETWORK_DELIMITERS: set<byte> := {AT, SLASH, QUESTION, HASH}
  const HOST_PORT_DELIMITERS: set<byte> := {SLASH, QUESTION, HASH}
  const PATH_DELIMITERS: set<byte> := {QUESTION, HASH}
  const QUERY_DELIMITERS: set<byte> := {HASH}
  const SEPARATORS: set<byte> := {AMPERSAND, SEMICOLON}

  /** Which bytes a component escapes: bit c % 32 of word c / 32. */
  type Table = t: seq<bv32> | |t| == 8 witness [0, 0, 0, 0, 0, 0, 0, 0]

  function HighBits(a: bv32, b: bv32, c: bv32, d: bv32): Table {
    [a, b, c, d, 0xFFFFFFFF, 0xFFFFFFFF, 0xFFFFFFFF, 0xFFFFFFFF]
  }

  const SCHEME_TABLE: Table := HighBits(0xFFFFFFFF, 0xFC0097FF, 0x78000001, 0xB8000001)
  const USERINFO_TABLE: Table := HighBits(0xFFFFFFFF, 0xD000802D, 0x78000001, 0xB8000001)
  const HOST_TABLE: Table := HighBits(0xFFFFFFFF, 0xD000802D, 0x50000001, 0xB8000001)
  const PORT_TABLE: Table := HighBits(0xFFFFFFFF, 0xFC009FFF, 0x78000001, 0xB8000001)
  const PATH_TABLE: Table := HighBits(0xFFFFFFFF, 0xD000002D, 0x78000000, 0xB8000001)
  const QUERY_TABLE: Table := HighBits(0xFFFFFFFF, 0x5000002D, 0x78000000, 0xB8000001)
  const FRAGMENT_TABLE: Table := HighBits(0xFFFFFFFF, 0x5000002D, 0x78000000, 0xB8000001)

  predicate Bit(w: bv32, k: nat)
    requires k < 32
  {
    w & (1 << k) != 0
  }

  predicate Reserved(c: byte, t: Table) {
    Bit(t[c / 32], c % 32)
  }

  datatype Query = Query(name: Bytes, value: Option<Bytes>)
  datatype Parts = Parts(scheme: Option<Bytes>, userinfo: Option<Bytes>, host: Option<Bytes>, port: Option<Bytes>,
                         path: Option<Bytes>, queries: seq<Query>, fragment: Option<Bytes>)

  const NO_PARTS := Parts(None, None, None, None, None, [], None)

  // ---------- escaping ----------

  function HexDigit(v: nat): byte
    requires v < 16
  {
    if v > 9 then 65 + v - 10 else 48 + v
  }

  function HexValue(c: byte): (v: nat)
    ensures v < 16
  {
    if 48 <= c <= 57 then c - 48
    else if 65 <= c <= 70 then c - 55
    else if 97 <= c <= 102 then c - 87
    else 0
  }

  function EscapedByte(c: byte, t: Table): Bytes {
    if Reserved(c, t) then [PERCENT, HexDigit(c / 16), HexDigit(c % 16)] else [c]
  }

  function Escaped(s: Bytes, t: Table): Bytes {
    if s == [] then [] else EscapedByte(s[0], t) + Escaped(s[1..], t)
  }

  /** A percent sign with fewer than two bytes after it stands for itself. */
  function Unescaped(s: Bytes): Bytes {
    if s == [] then []
    else if s[0] == PERCENT && |s| > 2 then [HexValue(s[1]) * 16 + HexValue(s[2])] + Unescaped(s[3..])
    else [s[0]] + Unescaped(s[1..])
  }

  /** The bytes of a buffer up to its first zero. */
  function CString(s: Bytes): (r: Bytes)
    ensures r <= s && (r == s || s[|r|] == 0) && forall i :: 0 <= i < |r| ==> r[i] == s[i] != 0
  {
    if s == [] || s[0] == 0 then [] else [s[0]] + CString(s[1..])
  }

  function Piece(s: Bytes): Bytes {
    CString(Unescaped(s))
  }

  function LowerByte(c: byte): byte {
    if 65 <= c <= 90 then c + 32 else c
  }

  function Lower(s: Bytes): (r: Bytes)
    ensures |r| == |s|
  {
    seq(|s|, i requires 0 <= i < |s| => LowerByte(s[i]))
  }

  predicate NoUpper(s: Bytes) {
    forall i :: 0 <= i < |s| ==> !(65 <= s[i] <= 90)
  }

  /** The first position holding one of d, or the length. */
  function FirstIn(s: Bytes, d: set<byte>): (n: nat)
    ensures n <= |s| && (n < |s| ==> s[n] in d) && forall i :: 0 <= i < n ==> s[i] !in d
  {
    if s == [] || s[0] in d then 0 else 1 + FirstIn(s[1..], d)
  }

  predicate Starts(s: Bytes, c: byte) {
    |s| > 0 && s[0] == c
  }

  // ---------- parsing ----------

  function StoredQuery(s: Bytes): seq<Query> {
    var e := FirstIn(s, {EQUALS});
    if e == 0 then []
    else [Query(Piece(s[..e]), if e < |s| then Some(Piece(s[e + 1..])) else None)]
  }

  function ParseQueries(s: Bytes): seq<Query> {
    if s == [] then []
    else var n := FirstIn(s, SEPARATORS);
      StoredQuery(s[..n]) + (if n < |s| then ParseQueries(s[n + 1..]) else [])
  }

  function ParseFragment(s: Bytes): Option<Bytes> {
    if Starts(s, HASH) then Some(Piece(s[1..])) else None
  }

  function ParsePath(s: Bytes, p: Parts): Parts {
    var m := FirstIn(s, PATH_DELIMITERS);
    var q := p.(path := if m > 0 then Some(Piece(s[..m])) else None);
    var rest := s[m..];
    if Starts(rest, QUESTION) then
      var n := 1 + FirstIn(rest[1..], QUERY_DELIMITERS);
      q.(queries := ParseQueries(rest[1..n]), fragment := ParseFragment(rest[n..]))
    else q.(fragment := ParseFragment(rest))
  }

  /** Where the host ends in what follows any user information. */
  function HostEnd(s: Bytes): (n: nat)
    ensures n <= |s|
  {
    if Starts(s, OPEN) then
      var n := FirstIn(s, {CLOSE});
      if n < |s| then n + 1 else n
    else FirstIn(s, {COLON})
  }

  function HostOf(s: Bytes): Bytes {
    Lower(Piece(s[..HostEnd(s)]))
  }

  function PortOf(s: Bytes): Option<Bytes> {
    if Starts(s[HostEnd(s)..], COLON) then Some(Piece(s[HostEnd(s) + 1..])) else None
  }

  function WithHost(s: Bytes, p: Parts): Parts {
    p.(host := Some(HostOf(s)), port := PortOf(s))
  }

  function ParseAuthority(s: Bytes, p: Parts): Parts {
    var m := FirstIn(s, NETWORK_DELIMITERS);
    if Starts(s[m..], AT) then
      var e := m + 1 + FirstIn(s[m + 1..], HOST_PORT_DELIMITERS);
      ParsePath(s[e..], WithHost(s[m + 1..e], p.(userinfo := Some(Piece(s[..m])))))
    else ParsePath(s[m..], WithHost(s[..m], p))
  }

  predicate StartsAuthority(s: Bytes) {
    Starts(s, SLASH) && Starts(s[1..], SLASH)
  }

  function ParseAfterScheme(s: Bytes, p: Parts): Parts {
    if StartsAuthority(s) then ParseAuthority(s[2..], p) else ParsePath(s, p)
  }

  predicate IsLetter(c: byte) {
    65 <= c <= 90 || 97 <= c <= 122
  }

  /** vc_uri_parse */
  function ParseText(s: Bytes): Parts {
    var m := FirstIn(s, SCHEME_DELIMITERS);
    if Starts(s[m..], COLON) then
      if m == 1 && IsLetter(s[0]) && Starts(s[2..], BACKSLASH) then NO_PARTS.(path := Some(s))
      else ParseAfterScheme(s[m + 1..], NO_PARTS.(scheme := Some(Lower(Piece(s[..m])))))
    else ParseAfterScheme(s, NO_PARTS)
  }

  // ---------- building ----------

  function QueryText(q: Query): Bytes {
    Escaped(q.name, QUERY_TABLE)
    + (if q.value.Some? then [EQUALS] + Escaped(q.value.value, QUERY_TABLE) else [])
  }

  function JoinedQueries(qs: seq<Query>): Bytes {
    if qs == [] then []
    else QueryText(qs[0]) + (if |qs| > 1 then [AMPERSAND] + JoinedQueries(qs[1..]) else [])
  }

  /** An optional component behind its mark. */
  function Marked(mark: Bytes, s: Option<Bytes>, t: Table): Bytes {
    if s.Some? then mark + Escaped(s.value, t) else []
  }

  function QueryTail(p: Parts): Bytes {
    (if p.queries == [] then [] else [QUESTION] + JoinedQueries(p.queries)) + Marked([HASH], p.fragment, FRAGMENT_TABLE)
  }

  function PathTail(p: Parts): Bytes {
    Marked([], p.path, PATH_TABLE) + QueryTail(p)
  }

  function UserinfoText(p: Parts): Bytes {
    if p.userinfo.Some? then Escaped(p.userinfo.value, USERINFO_TABLE) + [AT] else []
  }

  function HostText(h: Bytes, port: Option<Bytes>): Bytes {
    Escaped(h, HOST_TABLE) + Marked([COLON], port, PORT_TABLE)
  }

  function SchemeTail(p: Parts): Bytes {
    (if p.host.Some? then [SLASH, SLASH] + (UserinfoText(p) + HostText(p.host.value, p.port)) else []) + PathTail(p)
  }

  /** What vc_uri_build writes: without a scheme, the path as it stands. */
  function Text(p: Parts): Bytes {
    if p.scheme.None? then
      if p.path.Some? then p.path.value else []
    else Escaped(p.scheme.value, SCHEME_TABLE) + [COLON] + SchemeTail(p)
  }

  // ---------- when parsing undoes building ----------

  predicate IsCString(s: Bytes) {
    0 !in s
  }

  predicate MaybeCString(s: Option<Bytes>) {
    s.Some? ==> IsCString(s.value)
  }

  predicate CStrings(p: Parts) {
    && MaybeCString(p.scheme) && MaybeCString(p.userinfo) && MaybeCString(p.host) && MaybeCString(p.port)
    && MaybeCString(p.path) && MaybeCString(p.fragment)
    && forall q :: q in p.queries ==> IsCString(q.name) && MaybeCString(q.value)
  }

  /** A bracketed host ends at its only closing bracket, or has none and no port follows; any
      other host has no colon. */
  predicate HostStands(h: Bytes, port: Option<Bytes>) {
    if Starts(h, OPEN) then
      var n := FirstIn(h, {CLOSE});
      n + 1 == |h| || (n == |h| && port.None?)
    else COLON !in h
  }

  predicate QueryStands(q: Query) {
    && q.name != [] && EQUALS !in q.name && FirstIn(q.name, SEPARATORS) == |q.name|
    && (q.value.Some? ==> FirstIn(q.value.value, SEPARATORS) == |q.value.value|)
  }

  predicate Placed(p: Parts) {
    && (p.host.None? ==> p.userinfo.None? && p.port.None?)
    && (p.host.None? && p.path.Some? ==> !StartsAuthority(p.path.value))
    && (p.host.Some? && p.path.Some? && p.path.value != [] ==> p.path.value[0] == SLASH)
  }

  predicate Normal(p: Parts) {
    && Placed(p)
    && (p.scheme.Some? ==> NoUpper(p.scheme.value))
    && (p.host.Some? ==> NoUpper(p.host.value) && HostStands(p.host.value, p.port))
    && p.path != Some([])
    && forall q :: q in p.queries ==> QueryStands(q)
  }

  predicate DriveLetter(s: Bytes) {
    |s| > 2 && IsLetter(s[0]) && s[1] == COLON && s[2] == BACKSLASH
  }

  /** No percent sign has two bytes after it. */
  predicate NoEscapes(s: Bytes) {
    forall i :: 0 <= i && i + 2 < |s| ==> s[i] != PERCENT
  }

  /** A path that is its own text: one with a drive letter, or one that holds no mark of another part
      and no escape. */
  predicate PlainPath(s: Bytes) {
    DriveLetter(s)
    || (s != [] && !Starts(s[FirstIn(s, SCHEME_DELIMITERS)..], COLON) && !StartsAuthority(s)
        && QUESTION !in s && HASH !in s && NoEscapes(s))
  }

  /** The parts that come back: with a scheme the normal ones, without one a plain path alone, or
      nothing at all. */
  predicate Rebuilt(p: Parts) {
    if p.scheme.Some? then Normal(p)
    else p == NO_PARTS.(path := p.path) && (p.path.Some? ==> PlainPath(p.path.value))
  }

  // ---------- escaped text ----------

  /** No byte of an escape sequence is in d. */
  predicate Plain(d: set<byte>) {
    PERCENT !in d && forall v :: 0 <= v < 16 ==> HexDigit(v) !in d
  }

  lemma {:induction false} EscapedJoin(a: Bytes, b: Bytes, t: Table)
    ensures Escaped(a + b, t) == Escaped(a, t) + Escaped(b, t)
  {
    if a == [] {
      assert a + b == b;
    } else {
      assert (a + b)[1..] == a[1..] + b;
      EscapedJoin(a[1..], b, t);
    }
  }

  lemma EscapedEmpty(a: Bytes, t: Table)
    ensures Escaped(a, t) == [] <==> a == []
  {
  }

  /** Unescaping gives back what was escaped, whatever follows. */
  lemma {:induction false} EscapeUndone(a: Bytes, t: Table, rest: Bytes)
    requires Reserved(PERCENT, t)
    ensures Unescaped(Escaped(a, t) + rest) == a + Unescaped(rest)
  {
    hide Reserved, EscapedByte, Unescaped;
    if a == [] {
      assert Escaped(a, t) + rest == rest;
    } else {
      EscapeUndone(a[1..], t, rest);
      var tail := Escaped(a[1..], t) + rest;
      assert Escaped(a, t) + rest == EscapedByte(a[0], t) + tail;
      UnescapeFirst(a[0], t, tail);
      assert [a[0]] + (a[1..] + Unescaped(rest)) == a + Unescaped(rest);
    }
  }

  lemma UnescapeFirst(c: byte, t: Table, tail: Bytes)
    requires Reserved(PERCENT, t)
    ensures Unescaped(EscapedByte(c, t) + tail) == [c] + Unescaped(tail)
  {
    hide Reserved;
    var s := EscapedByte(c, t) + tail;
    if Reserved(c, t) {
      assert s[3..] == tail && s[0] == PERCENT && s[1] == HexDigit(c / 16) && s[2] == HexDigit(c % 16);
      assert HexValue(HexDigit(c / 16)) == c / 16 && HexValue(HexDigit(c % 16)) == c % 16;
    } else {
      assert s[1..] == tail && s[0] == c;
    }
  }

  lemma {:induction false} NoZeroIsCString(s: Bytes)
    requires IsCString(s)
    ensures CString(s) == s
  {
    if s == [] {
    } else {
      NoZeroIsCString(s[1..]);
    }
  }

  lemma EscapedPiece(a: Bytes, t: Table)
    requires Reserved(PERCENT, t) && IsCString(a)
    ensures Piece(Escaped(a, t)) == a
  {
    hide Reserved;
    EscapeUndone(a, t, []);
    assert Escaped(a, t) + [] == Escaped(a, t);
    NoZeroIsCString(a);
  }

  /** Escaping keeps d out when every byte of it present is reserved. */
  lemma {:induction false} EscapedAvoids(a: Bytes, t: Table, d: set<byte>)
    requires Plain(d) && forall i :: 0 <= i < |a| && a[i] in d ==> Reserved(a[i], t)
    ensures forall i :: 0 <= i < |Escaped(a, t)| ==> Escaped(a, t)[i] !in d
  {
    hide Reserved;
    if a == [] {
    } else {
      EscapedAvoids(a[1..], t, d);
    }
  }

  lemma FirstInIs(s: Bytes, d: set<byte>, n: nat)
    requires n <= |s| && (n < |s| ==> s[n] in d) && forall i :: 0 <= i < n ==> s[i] !in d
    ensures FirstIn(s, d) == n
  {
    var m := FirstIn(s, d);
  }

  /** Text without delimiters, then nothing or a delimiter. */
  lemma FirstAfter(a: Bytes, b: Bytes, d: set<byte>)
    requires forall i :: 0 <= i < |a| ==> a[i] !in d
    requires b == [] || b[0] in d
    ensures FirstIn(a + b, d) == |a| && (a + b)[..|a|] == a && (a + b)[|a|..] == b
  {
    FirstInIs(a + b, d, |a|);
  }

  /** Escaping moves the first unreserved delimiter but keeps the two sides apart. */
  lemma FirstInEscaped(a: Bytes, t: Table, d: set<byte>)
    requires Plain(d) && forall c :: c in d ==> !Reserved(c, t)
    ensures var n := FirstIn(a, d); var e := Escaped(a[..n], t);
            && Escaped(a, t) == e + Escaped(a[n..], t) && FirstIn(Escaped(a, t), d) == |e|
            && (n < |a| ==> Escaped(a[n..], t) == [a[n]] + Escaped(a[n + 1..], t))
  {
    hide Reserved;
    var n := FirstIn(a, d);
    assert a == a[..n] + a[n..];
    EscapedJoin(a[..n], a[n..], t);
    EscapedAvoids(a[..n], t, d);
    if n < |a| { assert a[n..][1..] == a[n + 1..]; }
    FirstAfter(Escaped(a[..n], t), Escaped(a[n..], t), d);
  }

  lemma NoUpperIsLower(s: Bytes)
    ensures NoUpper(s) <==> Lower(s) == s
  {
    if Lower(s) == s {
      forall i | 0 <= i < |s| ensures !(65 <= s[i] <= 90) { assert Lower(s)[i] == LowerByte(s[i]); }
    }
  }

  // ---------- queries ----------

  /** The joined queries before escaping. */
  function RawJoined(qs: seq<Query>): Bytes {
    if qs == [] then []
    else RawQuery(qs[0]) + (if |qs| > 1 then [AMPERSAND] + RawJoined(qs[1..]) else [])
  }

  function RawQuery(q: Query): Bytes {
    q.name + (if q.value.Some? then [EQUALS] + q.value.value else [])
  }

  function RawStored(s: Bytes): seq<Query> {
    var e := FirstIn(s, {EQUALS});
    if e == 0 then [] else [Query(s[..e], if e < |s| then Some(s[e + 1..]) else None)]
  }

  /** The queries of a text with no escapes. */
  function RawQueries(s: Bytes): seq<Query> {
    if s == [] then []
    else var n := FirstIn(s, SEPARATORS);
      RawStored(s[..n]) + (if n < |s| then RawQueries(s[n + 1..]) else [])
  }

  lemma RawStep(s: Bytes)
    ensures RawQueries([]) == []
    ensures s != [] ==> RawQueries(s) == RawStored(s[..FirstIn(s, SEPARATORS)])
                          + (if FirstIn(s, SEPARATORS) < |s| then RawQueries(s[FirstIn(s, SEPARATORS) + 1..]) else [])
  {
  }

  lemma ParseStep(s: Bytes)
    ensures ParseQueries([]) == []
    ensures s != [] ==> ParseQueries(s) == StoredQuery(s[..FirstIn(s, SEPARATORS)])
                          + (if FirstIn(s, SEPARATORS) < |s| then ParseQueries(s[FirstIn(s, SEPARATORS) + 1..]) else [])
  {
  }

  lemma QueryTable()
    ensures Plain({EQUALS}) && Plain(SEPARATORS) && Reserved(PERCENT, QUERY_TABLE)
    ensures forall c :: c in SEPARATORS + {EQUALS} ==> !Reserved(c, QUERY_TABLE)
  {
    assert Bit(0x5000002D, 5) && !Bit(0x5000002D, 6) && !Bit(0x5000002D, 27) && !Bit(0x5000002D, 29);
    hide Bit;
  }

  lemma {:induction false} EscapedRaw(qs: seq<Query>)
    ensures JoinedQueries(qs) == Escaped(RawJoined(qs), QUERY_TABLE)
  {
    if qs == [] {
    } else {
      var q := qs[0];
      QueryTable();
      hide Reserved;
      if q.value.Some? {
        EscapedJoin(q.name, [EQUALS] + q.value.value, QUERY_TABLE);
        assert ([EQUALS] + q.value.value)[1..] == q.value.value;
      }
      assert Escaped(RawQuery(q), QUERY_TABLE) == QueryText(q) by { assert q.name + [] == q.name; }
      if |qs| > 1 {
        var tail := RawJoined(qs[1..]);
        EscapedRaw(qs[1..]);
        EscapedJoin(RawQuery(q), [AMPERSAND] + tail, QUERY_TABLE);
        assert ([AMPERSAND] + tail)[1..] == tail;
      } else {
        assert RawQuery(q) + [] == RawQuery(q);
      }
    }
  }

  lemma StoredEscaped(s: Bytes)
    requires IsCString(s)
    ensures StoredQuery(Escaped(s, QUERY_TABLE)) == RawStored(s)
  {
    QueryTable();
    hide Reserved, FirstIn, Piece, Escaped;
    var e, x := FirstIn(s, {EQUALS}), Escaped(s, QUERY_TABLE);
    var head, tail := Escaped(s[..e], QUERY_TABLE), Escaped(s[e..], QUERY_TABLE);
    FirstInEscaped(s, QUERY_TABLE, {EQUALS});
    EscapedEmpty(s[..e], QUERY_TABLE);
    EscapedEmpty(s[e..], QUERY_TABLE);
    if e > 0 {
      EscapedPiece(s[..e], QUERY_TABLE);
      assert x[..|head|] == head;
      if e < |s| {
        EscapedPiece(s[e + 1..], QUERY_TABLE);
        assert x[|head| + 1..] == tail[1..] == Escaped(s[e + 1..], QUERY_TABLE);
      }
    }
  }

  lemma PiecesAreCStrings(s: Bytes)
    requires IsCString(s)
    ensures forall k :: 0 <= k <= |s| ==> IsCString(s[..k]) && IsCString(s[k..])
  {
  }

  lemma {:induction false} QueriesEscaped(s: Bytes)
    requires IsCString(s)
    ensures ParseQueries(Escaped(s, QUERY_TABLE)) == RawQueries(s)
    decreases |s|
  {
    QueryTable();
    hide Reserved, RawQueries, ParseQueries, RawStored, StoredQuery, FirstIn, Escaped, Plain, IsCString;
    EscapedEmpty([], QUERY_TABLE);
    PiecesAreCStrings(s);
    RawStep(s);
    ParseStep(Escaped(s, QUERY_TABLE));
    if s == [] {
    } else {
      var n := FirstIn(s, SEPARATORS);
      FirstInEscaped(s, QUERY_TABLE, SEPARATORS);
      StoredEscaped(s[..n]);
      var head, x := Escaped(s[..n], QUERY_TABLE), Escaped(s, QUERY_TABLE);
      EscapedEmpty(s, QUERY_TABLE);
      EscapedEmpty(s[n..], QUERY_TABLE);
      assert x[..|head|] == head;
      if n < |s| {
        QueriesEscaped(s[n + 1..]);
        assert x[|head| + 1..] == Escaped(s[n + 1..], QUERY_TABLE);
      }
    }
  }

  function Weight(qs: seq<Query>): nat {
    if qs == [] then 0 else |RawQuery(qs[0])| + 1 + Weight(qs[1..])
  }

  lemma {:induction false} JoinedWeight(qs: seq<Query>)
    requires qs != []
    ensures Weight(qs) == |RawJoined(qs)| + 1
  {
    if |qs| == 1 {
    } else {
      JoinedWeight(qs[1..]);
    }
  }

  /** Parsing never finds more than the text holds. */
  lemma {:induction false} ParsedWeight(s: Bytes)
    ensures Weight(RawQueries(s)) <= |s| + 1
    decreases |s|
  {
    hide RawStored, Weight, FirstIn, RawQueries;
    StoredWeight([], []);
    RawStep(s);
    if s == [] {
    } else {
      var n := FirstIn(s, SEPARATORS);
      if n < |s| { ParsedWeight(s[n + 1..]); }
      var tail := if n < |s| then RawQueries(s[n + 1..]) else [];
      StoredWeight(s[..n], tail);
    }
  }

  lemma StoredWeight(s: Bytes, tail: seq<Query>)
    ensures Weight(RawStored(s) + tail) <= |s| + 1 + Weight(tail)
    ensures RawStored(s) == [] || RawStored(s) == [RawStored(s)[0]]
    ensures Weight([]) == 0 && RawStored([]) == []
  {
    var first := RawStored(s);
    if first == [] {
      assert first + tail == tail;
    } else {
      assert (first + tail)[1..] == tail;
      var e := FirstIn(s, {EQUALS});
      assert s == s[..e] + s[e..];
      if e < |s| { assert s[e..] == [EQUALS] + s[e + 1..]; } else { assert s[..e] + [] == s; }
    }
  }

  /** A query that stands on its own is what its text reads back as. */
  lemma StandingStored(q: Query)
    requires QueryStands(q)
    ensures FirstIn(RawQuery(q), SEPARATORS) == |RawQuery(q)| && RawStored(RawQuery(q)) == [q]
  {
    var r := RawQuery(q);
    assert forall i :: 0 <= i < |q.name| ==> r[i] == q.name[i];
    assert q.value.Some? ==> forall i :: 0 <= i < |q.value.value| ==> r[|q.name| + 1 + i] == q.value.value[i];
    forall i | 0 <= i < |r| ensures r[i] !in SEPARATORS {
      if i > |q.name| { assert r[i] == q.value.value[i - |q.name| - 1]; }
    }
    FirstInIs(r, SEPARATORS, |r|);
    FirstInIs(r, {EQUALS}, |q.name|);
    assert r[..|q.name|] == q.name;
    assert q.value.Some? ==> r[|q.name| + 1..] == q.value.value;
  }

  /** Only a query that stands on its own is read back from text without separators. */
  lemma StoredStands(s: Bytes, q: Query)
    requires FirstIn(s, SEPARATORS) == |s| && RawStored(s) == [q]
    ensures QueryStands(q)
  {
    var e := FirstIn(s, {EQUALS});
    assert q.name == s[..e];
    FirstInIs(q.name, SEPARATORS, |q.name|);
    if q.value.Some? {
      assert q.value.value == s[e + 1..];
      FirstInIs(q.value.value, SEPARATORS, |q.value.value|);
    }
  }

  /** The first query of a joined list is read back exactly when it stands on its own. */
  lemma FirstQuery(q: Query, tail: Bytes)
    requires tail == [] || tail[0] == AMPERSAND
    ensures var s := RawQuery(q) + tail;
            if QueryStands(q) then RawQueries(s) == [q] + (if tail == [] then [] else RawQueries(tail[1..]))
            else RawQueries(s) == [] || RawQueries(s)[0] != q || Weight(RawQueries(s)) <= |s|
  {
    hide RawStored, Weight, RawQueries, FirstIn;
    var r, s := RawQuery(q), RawQuery(q) + tail;
    RawStep(s);
    if QueryStands(q) {
      StandingStored(q);
      assert r != [];
      FirstAfter(r, tail, SEPARATORS);
      if tail != [] { assert s[|r| + 1..] == tail[1..]; }
    } else if s != [] {
      var n := FirstIn(s, SEPARATORS);
      var first := RawStored(s[..n]);
      var rest := if n < |s| then RawQueries(s[n + 1..]) else [];
      StoredWeight(s[..n], rest);
      if first == [] {
        assert first + rest == rest;
        if n < |s| { ParsedWeight(s[n + 1..]); }
      } else if first[0] == q {
        FirstInIs(s[..n], SEPARATORS, n);
        StoredStands(s[..n], q);
      }
    }
  }

  lemma {:induction false} RawQueriesJoined(qs: seq<Query>)
    ensures RawQueries(RawJoined(qs)) == qs <==> forall q :: q in qs ==> QueryStands(q)
  {
    hide RawQueries, QueryStands, Weight;
    RawStep([]);
    if qs == [] {
    } else {
      var tail := if |qs| > 1 then [AMPERSAND] + RawJoined(qs[1..]) else [];
      FirstQuery(qs[0], tail);
      JoinedWeight(qs);
      if |qs| > 1 { assert tail[1..] == RawJoined(qs[1..]); }
      RawQueriesJoined(qs[1..]);
      assert qs == [qs[0]] + qs[1..];
    }
  }

  lemma {:induction false} RawIsCString(qs: seq<Query>)
    requires forall q :: q in qs ==> IsCString(q.name) && MaybeCString(q.value)
    ensures IsCString(RawJoined(qs))
  {
    if qs == [] {
    } else {
      RawIsCString(qs[1..]);
    }
  }

  /** Queries survive exactly when every name is non-empty and free of '=', and no name or
      value holds a separator. */
  lemma QueriesInverse(qs: seq<Query>)
    requires forall q :: q in qs ==> IsCString(q.name) && MaybeCString(q.value)
    ensures ParseQueries(JoinedQueries(qs)) == qs <==> forall q :: q in qs ==> QueryStands(q)
  {
    EscapedRaw(qs);
    RawIsCString(qs);
    QueriesEscaped(RawJoined(qs));
    RawQueriesJoined(qs);
  }
}
