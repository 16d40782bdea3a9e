/** The URI objects of containers_uri.c: parsing text into parts and building text from them. */
module Uri {
  import opened Basics
  import opened UriText

  /** The byte at i of a C string, which ends in a zero. */
  function At(s: Bytes, i: nat): byte
    requires i <= |s|
  {
    if i < |s| then s[i] else 0
  }

  lemma SliceParts(s: Bytes, lo: nat, mid: nat, hi: nat)
    requires lo <= mid <= hi <= |s|
    ensures s[lo..hi][..mid - lo] == s[lo..mid] && s[lo..hi][mid - lo..] == s[mid..hi]
  {
  }

  lemma EscapedStep(s: Bytes, i: nat, t: Table)
    requires i < |s|
    ensures Escaped(s[i..], t) == EscapedByte(s[i], t) + Escaped(s[i + 1..], t)
  {
    assert s[i..][1..] == s[i + 1..];
  }

  lemma UnescapedStep(s: Bytes, i: nat, hi: nat)
    requires i < hi <= |s|
    ensures Unescaped(s[i..hi]) == (if s[i] == PERCENT && i + 2 < hi
                                    then [HexValue(s[i + 1]) * 16 + HexValue(s[i + 2])] + Unescaped(s[i + 3..hi])
                                    else [s[i]] + Unescaped(s[i + 1..hi]))
  {
    var x := s[i..hi];
    assert x[0] == s[i] && x[1..] == s[i + 1..hi];
    if i + 2 < hi { assert x[1] == s[i + 1] && x[2] == s[i + 2] && x[3..] == s[i + 3..hi]; }
  }

  lemma UnescapedNothing()
    ensures Unescaped([]) == []
  {
  }

  lemma {:induction false} CStringEnds(s: Bytes)
    ensures CString(s + [0]) == CString(s)
  {
    if s == [] || s[0] == 0 {
    } else {
      assert (s + [0])[1..] == s[1..] + [0];
      CStringEnds(s[1..]);
    }
  }

  lemma CStringIs(s: Bytes, n: nat)
    requires n <= |s| && (n < |s| ==> s[n] == 0) && forall k :: 0 <= k < n ==> s[k] != 0
    ensures CString(s) == s[..n]
  {
    hide CString;
    var r := CString(s);
  }

  // ---------- strings ----------

  method EscapedLength(s: Bytes, t: Table) returns (n: nat)
    ensures n == |Escaped(s, t)|
  {
    hide Reserved;
    n := 0;
    for i := 0 to |s|
      invariant n + |Escaped(s[i..], t)| == |Escaped(s, t)|
    {
      EscapedStep(s, i, t);
      n := n + (if Reserved(s[i], t) then 3 else 1);
    }
  }

  method PutByte(c: byte, buffer: array<byte>, at: nat) returns (after: nat)
    requires at < buffer.Length
    modifies buffer
    ensures after == at + 1 && buffer[..after] == old(buffer[..at]) + [c]
  {
    buffer[at] := c;
    after := at + 1;
  }

  method PutEscaped(c: byte, t: Table, buffer: array<byte>, at: nat) returns (after: nat)
    requires at + |EscapedByte(c, t)| <= buffer.Length
    modifies buffer
    ensures after == at + |EscapedByte(c, t)| && buffer[..after] == old(buffer[..at]) + EscapedByte(c, t)
  {
    hide Reserved, HexDigit;
    if Reserved(c, t) {
      after := PutByte(PERCENT, buffer, at);
      after := PutByte(HexDigit(c / 16), buffer, after);
      after := PutByte(HexDigit(c % 16), buffer, after);
    } else {
      after := PutByte(c, buffer, at);
    }
  }

  lemma EscapedNothing(t: Table)
    ensures Escaped([], t) == []
  {
  }

  /** escape_string */
  method EscapeInto(s: Bytes, t: Table, buffer: array<byte>, at: nat) returns (after: nat)
    requires at + |Escaped(s, t)| <= buffer.Length
    modifies buffer
    ensures after == at + |Escaped(s, t)| && buffer[..after] == old(buffer[..at]) + Escaped(s, t)
  {
    hide EscapedByte, Escaped;
    after := at;
    assert s[0..] == s;
    for i := 0 to |s|
      invariant after + |Escaped(s[i..], t)| == at + |Escaped(s, t)|
      invariant buffer[..after] + Escaped(s[i..], t) == old(buffer[..at]) + Escaped(s, t)
    {
      EscapedStep(s, i, t);
      ghost var done := buffer[..after];
      after := PutEscaped(s[i], t, buffer, after);
      Associates(done, EscapedByte(s[i], t), Escaped(s[i + 1..], t));
    }
    assert s[|s|..] == [];
    EscapedNothing(t);
  }

  method UnescapedLength(s: Bytes, lo: nat, hi: nat) returns (n: nat)
    requires lo <= hi <= |s|
    ensures n == |Unescaped(s[lo..hi])|
  {
    n := 0;
    var i := lo;
    while i < hi
      invariant lo <= i <= hi && n + |Unescaped(s[i..hi])| == |Unescaped(s[lo..hi])|
    {
      UnescapedStep(s, i, hi);
      i := i + (if s[i] == PERCENT && i + 2 < hi then 3 else 1);
      n := n + 1;
    }
  }

  /** One turn of the loop of unescape_string */
  method UnescapeOne(s: Bytes, at: nat, hi: nat) returns (c: byte, next: nat)
    requires at < hi <= |s|
    ensures at < next <= hi && Unescaped(s[at..hi]) == [c] + Unescaped(s[next..hi])
  {
    hide Unescaped, HexValue;
    UnescapedStep(s, at, hi);
    c, next := s[at], at + 1;
    if c == PERCENT && next + 1 < hi {
      c := HexValue(s[next]) * 16 + HexValue(s[next + 1]);
      next := next + 2;
    }
  }

  /** unescape_string: the buffer sized by UnescapedLength is filled exactly. */
  method UnescapeInto(s: Bytes, lo: nat, hi: nat, buffer: array<byte>)
    requires lo <= hi <= |s| && buffer.Length == |Unescaped(s[lo..hi])| + 1
    modifies buffer
    ensures buffer[..] == Unescaped(s[lo..hi]) + [0]
  {
    hide Unescaped;
    UnescapedNothing();
    var i, out := lo, 0;
    while i < hi
      invariant lo <= i <= hi && out + |Unescaped(s[i..hi])| == |Unescaped(s[lo..hi])|
      invariant buffer[..out] + Unescaped(s[i..hi]) == Unescaped(s[lo..hi])
    {
      ghost var done := buffer[..out];
      var c;
      c, i := UnescapeOne(s, i, hi);
      out := PutByte(c, buffer, out);
      Associates(done, [c], Unescaped(s[i..hi]));
    }
    assert s[i..hi] == [];
    out := PutByte(0, buffer, out);
    assert buffer[..] == buffer[..out];
  }

  /** What the C string held by a buffer is. */
  method ReadCString(buffer: array<byte>) returns (r: Bytes)
    requires buffer.Length > 0
    ensures r == CString(buffer[..])
  {
    var n := 0;
    while n < buffer.Length && buffer[n] != 0
      invariant n <= buffer.Length && forall k :: 0 <= k < n ==> buffer[k] != 0
    {
      n := n + 1;
    }
    r := buffer[..n];
    CStringIs(buffer[..], n);
  }

  /** create_unescaped_string */
  method CreateUnescaped(s: Bytes, lo: nat, hi: nat) returns (r: Bytes)
    requires lo <= hi <= |s|
    ensures r == Piece(s[lo..hi])
  {
    hide Unescaped, CString;
    var n := UnescapedLength(s, lo, hi);
    var buffer := new byte[n + 1];
    UnescapeInto(s, lo, hi, buffer);
    CStringEnds(Unescaped(s[lo..hi]));
    r := ReadCString(buffer);
  }

  /** to_lower_string */
  method ToLower(s: Bytes) returns (r: Bytes)
    ensures r == Lower(s)
  {
    r := s;
    for i := 0 to |s|
      invariant |r| == |s| && (forall k :: 0 <= k < i ==> r[k] == LowerByte(s[k])) && r[i..] == s[i..]
    {
      assert r[i] == r[i..][0] == s[i];
      r := r[i := LowerByte(r[i])];
      assert r[i + 1..] == s[i + 1..];
    }
  }

  /** vc_uri_find_delimiter */
  method FindDelimiter(s: Bytes, from: nat, d: set<byte>) returns (marker: nat)
    requires from <= |s|
    ensures from <= marker <= |s| && marker == from + FirstIn(s[from..], d)
  {
    marker := from;
    while marker < |s| && s[marker] !in d
      invariant from <= marker <= |s| && forall i :: from <= i < marker ==> s[i] !in d
    {
      marker := marker + 1;
    }
    FirstInIs(s[from..], d, marker - from);
  }

  lemma Separated(s: Bytes, start: nat, i: nat, end: nat)
    requires start <= i <= end <= |s| && FirstIn(s[start..i], SEPARATORS) == i - start
    requires i == end || s[i] in SEPARATORS
    ensures ParseQueries(s[start..end]) == StoredQuery(s[start..i]) + (if i < end then ParseQueries(s[i + 1..end]) else [])
  {
    hide ParseQueries, StoredQuery, FirstIn;
    var x := s[start..end];
    assert s[start..i] == x[..i - start] && forall k :: 0 <= k < i - start ==> x[k] == s[start..i][k];
    FirstInIs(x, SEPARATORS, i - start);
    ParseStep(x);
    if i < end { assert x[i - start + 1..] == s[i + 1..end]; }
    EmptyStored();
  }

  lemma EmptyStored()
    ensures StoredQuery([]) == [] && ParseQueries([]) == []
  {
  }

  lemma OneFurther(s: Bytes, start: nat, i: nat, d: set<byte>)
    requires start <= i < |s|
    ensures var n := FirstIn(s[start..i], d);
            FirstIn(s[start..i + 1], d) == (if n < i - start || s[i] in d then n else n + 1)
  {
    hide FirstIn;
    var x, y := s[start..i], s[start..i + 1];
    var n := FirstIn(x, d);
    assert y == x + [s[i]];
    FirstInIs(y, d, if n < i - start || s[i] in d then n else n + 1);
  }

  lemma MarkedQuery(q: Query)
    ensures QueryText(q) == Marked([], Some(q.name), QUERY_TABLE) + Marked([EQUALS], q.value, QUERY_TABLE)
  {
  }

  lemma JoinedStep(qs: seq<Query>, more: Bytes)
    ensures JoinedQueries([]) == []
    ensures qs != [] && more == (if |qs| > 1 then [AMPERSAND] else []) ==>
              JoinedQueries(qs) == QueryText(qs[0]) + more + JoinedQueries(qs[1..])
  {
  }

  function FragmentAt(s: Bytes, i: nat): Option<Bytes>
    requires i <= |s|
  {
    if i < |s| && s[i] == HASH then Some(Piece(s[i + 1..])) else None
  }

  /** The parse of the path, query and fragment by positions. */
  lemma PathByPosition(s: Bytes, from: nat, marker: nat, base: Parts)
    requires from <= marker <= |s| && marker == from + FirstIn(s[from..], PATH_DELIMITERS)
    ensures var q := base.(path := if marker > from then Some(Piece(s[from..marker])) else None);
            ParsePath(s[from..], base) ==
              if marker < |s| && s[marker] == QUESTION then
                var e := marker + 1 + FirstIn(s[marker + 1..], QUERY_DELIMITERS);
                q.(queries := ParseQueries(s[marker + 1..e]), fragment := FragmentAt(s, e))
              else q.(fragment := FragmentAt(s, marker))
  {
    hide FirstIn, Piece, ParseQueries;
    var t, m := s[from..], marker - from;
    assert t[..m] == s[from..marker] && t[m..] == s[marker..];
    if marker < |s| { assert t[m..][1..] == s[marker + 1..]; }
    if marker < |s| && s[marker] == QUESTION {
      var n := 1 + FirstIn(s[marker + 1..], QUERY_DELIMITERS);
      assert t[m..][1..n] == s[marker + 1..marker + n] && t[m..][n..] == s[marker + n..];
      if marker + n < |s| { assert t[m..][n..][1..] == s[marker + n + 1..]; }
    }
  }

  /** The parse from an authority on, by positions. */
  lemma AuthorityByPosition(s: Bytes, at: nat, marker: nat, base: Parts)
    requires at <= marker <= |s| && marker == at + FirstIn(s[at..], NETWORK_DELIMITERS)
    ensures ParseAuthority(s[at..], base) ==
              if marker < |s| && s[marker] == AT then
                var e := marker + 1 + FirstIn(s[marker + 1..], HOST_PORT_DELIMITERS);
                ParsePath(s[e..], WithHost(s[marker + 1..e], base.(userinfo := Some(Piece(s[at..marker])))))
              else ParsePath(s[marker..], WithHost(s[at..marker], base))
  {
    hide FirstIn, Piece, ParsePath, WithHost;
    var a, m := s[at..], marker - at;
    assert a[..m] == s[at..marker] && a[m..] == s[marker..];
    if marker < |s| && s[marker] == AT {
      var e := m + 1 + FirstIn(s[marker + 1..], HOST_PORT_DELIMITERS);
      assert a[m + 1..] == s[marker + 1..];
      assert a[m + 1..e] == s[marker + 1..at + e] && a[e..] == s[at + e..];
    }
  }

  class Uri {
    var scheme: Option<Bytes>
    var userinfo: Option<Bytes>
    var host: Option<Bytes>
    var port: Option<Bytes>
    var path: Option<Bytes>
    var queries: seq<Query>
    var fragment: Option<Bytes>

    function Value(): Parts
      reads this
    {
      Parts(scheme, userinfo, host, port, path, queries, fragment)
    }

    constructor ()
      ensures Value() == NO_PARTS
    {
      scheme, userinfo, host, port, path, queries, fragment := None, None, None, None, None, [], None;
    }

    method Clear()
      modifies this
      ensures Value() == NO_PARTS
    {
      scheme, userinfo, host, port, path, queries, fragment := None, None, None, None, None, [], None;
    }

    static method FindHostEnd(uri: Bytes, str: nat, end: nat) returns (marker: nat)
      requires str <= end <= |uri| && (end == |uri| || uri[end] in HOST_PORT_DELIMITERS)
      ensures str <= marker <= end && marker - str == HostEnd(uri[str..end])
    {
      hide FirstIn;
      ghost var a := uri[str..end];
      marker := str;
      if At(uri, str) == OPEN {
        while marker < end && uri[marker] != CLOSE
          invariant str <= marker <= end && forall i :: str <= i < marker ==> uri[i] != CLOSE
        {
          marker := marker + 1;
        }
        FirstInIs(a, {CLOSE}, marker - str);
        if marker < end { marker := marker + 1; }
      } else {
        while marker < end && uri[marker] != COLON
          invariant str <= marker <= end && forall i :: str <= i < marker ==> uri[i] != COLON
        {
          marker := marker + 1;
        }
        FirstInIs(a, {COLON}, marker - str);
      }
    }

    /** parse_authority, over the bytes from start to end */
    method ParseAuthorityAt(uri: Bytes, start: nat, end: nat, userinfoEnd: Option<nat>)
      requires start <= end <= |uri| && (end == |uri| || uri[end] in HOST_PORT_DELIMITERS) && IsCString(uri)
      requires userinfoEnd.Some? ==> start <= userinfoEnd.value < end
      requires port == None
      modifies `userinfo, `host, `port
      ensures Value() == WithHost(uri[(if userinfoEnd.Some? then userinfoEnd.value + 1 else start)..end],
                                  if userinfoEnd.Some?
                                  then old(Value()).(userinfo := Some(Piece(uri[start..userinfoEnd.value])))
                                  else old(Value()))
    {
      hide Piece, Lower, FirstIn, HostEnd;
      var str := start;
      if userinfoEnd.Some? {
        var u := CreateUnescaped(uri, start, userinfoEnd.value);
        userinfo := Some(u);
        str := userinfoEnd.value + 1;
      }
      ghost var a := uri[str..end];
      var marker := FindHostEnd(uri, str, end);
      SliceParts(uri, str, marker, end);
      var h := CreateUnescaped(uri, str, marker);
      h := ToLower(h);
      host := Some(h);
      if At(uri, marker) == COLON {
        assert marker < end;
        var p := CreateUnescaped(uri, marker + 1, end);
        port := Some(p);
        SliceParts(uri, str, marker + 1, end);
      }
    }

    /** store_query: a query without a name is dropped. */
    method StoreQuery(uri: Bytes, nameStart: nat, equals: Option<nat>, end: nat)
      requires nameStart <= end <= |uri|
      requires FirstIn(uri[nameStart..end], {EQUALS}) == (if equals.Some? then equals.value else end) - nameStart
      requires equals.Some? ==> nameStart <= equals.value < end
      modifies `queries
      ensures queries == old(queries) + StoredQuery(uri[nameStart..end])
    {
      hide Piece, FirstIn;
      var nameLength := (if equals.Some? then equals.value else end) - nameStart;
      ghost var s := uri[nameStart..end];
      if nameLength > 0 {
        var value := None;
        if equals.Some? {
          var v := CreateUnescaped(uri, equals.value + 1, end);
          value := Some(v);
          assert s[nameLength + 1..] == uri[equals.value + 1..end];
        }
        var name := CreateUnescaped(uri, nameStart, nameStart + nameLength);
        assert s[..nameLength] == uri[nameStart..nameStart + nameLength];
        queries := queries + [Query(name, value)];
      }
    }

    /** parse_query */
    method ParseQueryAt(uri: Bytes, start: nat, end: nat)
      requires start <= end <= |uri| && queries == []
      modifies `queries
      ensures queries == ParseQueries(uri[start..end])
    {
      hide ParseQueries, StoredQuery, FirstIn;
      EmptyStored();
      if start == end { return; }
      var nameStart, equals := start, None;
      FirstInIs([], SEPARATORS, 0);
      FirstInIs([], {EQUALS}, 0);
      for i := start to end
        invariant start <= nameStart <= i
        invariant queries + ParseQueries(uri[nameStart..end]) == ParseQueries(uri[start..end])
        invariant FirstIn(uri[nameStart..i], SEPARATORS) == i - nameStart
        invariant equals.Some? ==> nameStart <= equals.value < i
        invariant FirstIn(uri[nameStart..i], {EQUALS}) == (if equals.Some? then equals.value else i) - nameStart
      {
        var c := uri[i];
        OneFurther(uri, nameStart, i, {EQUALS});
        OneFurther(uri, nameStart, i, SEPARATORS);
        if c == EQUALS && equals.None? {
          equals := Some(i);
        } else if c in SEPARATORS {
          Separated(uri, nameStart, i, end);
          ghost var stored := queries;
          StoreQuery(uri, nameStart, equals, i);
          assert stored + (StoredQuery(uri[nameStart..i]) + ParseQueries(uri[i + 1..end]))
              == queries + ParseQueries(uri[i + 1..end]);
          equals := None;
          nameStart := i + 1;
        }
      }
      Separated(uri, nameStart, end, end);
      StoreQuery(uri, nameStart, equals, end);
    }

    /** vc_uri_parse, from the authority or path on */
    method ParseRest(uri: Bytes, from: nat)
      requires IsCString(uri) && from <= |uri|
      requires userinfo == None && host == None && port == None && path == None && queries == [] && fragment == None
      modifies this
      ensures Value() == ParseAfterScheme(uri[from..], old(Value()))
    {
      hide FirstIn, Piece, HostOf, PortOf, ParsePath, ParseAuthority, WithHost;
      assert At(uri, from) == SLASH && At(uri, from + 1) == SLASH <==> StartsAuthority(uri[from..]);
      if At(uri, from) == SLASH && At(uri, from + 1) == SLASH {
        var at := from + 2;
        assert uri[from..][2..] == uri[at..];
        var marker := FindDelimiter(uri, at, NETWORK_DELIMITERS);
        AuthorityByPosition(uri, at, marker, Value());
        var userinfoEnd := None;
        if At(uri, marker) == AT {
          userinfoEnd := Some(marker);
          marker := FindDelimiter(uri, marker + 1, HOST_PORT_DELIMITERS);
        }
        ParseAuthorityAt(uri, at, marker, userinfoEnd);
        ParsePathAt(uri, marker);
      } else {
        ParsePathAt(uri, from);
      }
    }

    /** The path, query and fragment */
    method ParsePathAt(uri: Bytes, from: nat)
      requires IsCString(uri) && from <= |uri| && path == None && queries == [] && fragment == None
      modifies `path, `queries, `fragment
      ensures Value() == ParsePath(uri[from..], old(Value()))
    {
      hide FirstIn, Piece, ParseQueries, ParsePath;
      var marker := FindDelimiter(uri, from, PATH_DELIMITERS);
      PathByPosition(uri, from, marker, Value());
      if marker > from {
        var p := CreateUnescaped(uri, from, marker);
        path := Some(p);
      }
      if At(uri, marker) == QUESTION {
        var start := marker + 1;
        marker := FindDelimiter(uri, start, QUERY_DELIMITERS);
        ParseQueryAt(uri, start, marker);
      }
      if At(uri, marker) == HASH {
        var f := CreateUnescaped(uri, marker + 1, |uri|);
        assert uri[marker + 1..|uri|] == uri[marker + 1..];
        fragment := Some(f);
      }
    }

    /** vc_uri_parse: the object holds what the text means, whatever it held before. */
    method Parse(uri: Bytes)
      requires IsCString(uri)
      modifies this
      ensures Value() == ParseText(uri)
    {
      hide FirstIn, Piece, ParseAfterScheme, Lower;
      Clear();
      var marker := FindDelimiter(uri, 0, SCHEME_DELIMITERS);
      assert uri[0..] == uri;
      if At(uri, marker) == COLON {
        if IsLetter(uri[0]) && marker == 1 && At(uri, marker + 1) == BACKSLASH {
          path := Some(uri);
          return;
        }
        var s := CreateUnescaped(uri, 0, marker);
        s := ToLower(s);
        scheme := Some(s);
        ParseRest(uri, marker + 1);
      } else {
        ParseRest(uri, 0);
      }
    }

    // ---------- building ----------

    /** calculate_uri_length */
    method CalculateLength() returns (length: nat)
      ensures length == |Text(Value())|
    {
      hide Escaped, UserinfoText, HostText, JoinedQueries;
      if scheme.None? {
        return if path.Some? then |path.value| else 0;
      }
      length := EscapedLength(scheme.value, SCHEME_TABLE);
      length := length + 1;
      if host.Some? {
        var n := AuthorityLength();
        length := length + n;
      }
      if path.Some? {
        var n := EscapedLength(path.value, PATH_TABLE);
        length := length + n;
      }
      var q := QueriesLength();
      length := length + q;
      if fragment.Some? {
        var n := EscapedLength(fragment.value, FRAGMENT_TABLE);
        length := length + n + 1;
      }
    }

    method AuthorityLength() returns (length: nat)
      requires host.Some?
      ensures length == 2 + |UserinfoText(Value())| + |HostText(host.value, port)|
    {
      hide Escaped;
      length := EscapedLength(host.value, HOST_TABLE);
      length := length + 2;
      if userinfo.Some? {
        var n := EscapedLength(userinfo.value, USERINFO_TABLE);
        length := length + n + 1;
      }
      if port.Some? {
        var n := EscapedLength(port.value, PORT_TABLE);
        length := length + n + 1;
      }
    }

    method QueriesLength() returns (length: nat)
      ensures length == if queries == [] then 0 else |JoinedQueries(queries)| + 1
    {
      hide Escaped;
      length := 0;
      for i := 0 to |queries|
        invariant length + TailLength(queries[i..]) == TailLength(queries)
      {
        assert queries[i..][1..] == queries[i + 1..];
        var n := EscapedLength(queries[i].name, QUERY_TABLE);
        length := length + n + 1;
        if queries[i].value.Some? {
          n := EscapedLength(queries[i].value.value, QUERY_TABLE);
          length := length + n + 1;
        }
      }
    }

    static function TailLength(qs: seq<Query>): nat {
      if qs == [] then 0 else |JoinedQueries(qs)| + 1
    }

    /** A mark and an escaped component, when there is one */
    static method PutMarked(mark: Bytes, s: Option<Bytes>, t: Table, buffer: array<byte>, at: nat) returns (after: nat)
      requires |mark| <= 1 && at + |Marked(mark, s, t)| <= buffer.Length
      modifies buffer
      ensures after == at + |Marked(mark, s, t)| && buffer[..after] == old(buffer[..at]) + Marked(mark, s, t)
    {
      hide Escaped;
      after := at;
      if s.Some? {
        ghost var done := buffer[..at];
        if |mark| == 1 { after := PutByte(mark[0], buffer, after); }
        assert buffer[..after] == done + mark;
        after := EscapeInto(s.value, t, buffer, after);
        assert (done + mark) + Escaped(s.value, t) == done + (mark + Escaped(s.value, t));
      }
    }

    method PutQueries(buffer: array<byte>, at: nat) returns (after: nat)
      requires at + |JoinedQueries(queries)| <= buffer.Length
      modifies buffer
      ensures after == at + |JoinedQueries(queries)| && buffer[..after] == old(buffer[..at]) + JoinedQueries(queries)
    {
      hide Marked, QueryText, JoinedQueries;
      assert queries[0..] == queries;
      JoinedStep([], []);
      after := at;
      var i := 0;
      while i < |queries|
        invariant 0 <= i <= |queries| && after + |JoinedQueries(queries[i..])| == at + |JoinedQueries(queries)|
        invariant buffer[..after] + JoinedQueries(queries[i..]) == old(buffer[..at]) + JoinedQueries(queries)
      {
        ghost var done, q := buffer[..after], queries[i];
        ghost var more: Bytes := if i + 1 < |queries| then [AMPERSAND] else [];
        assert queries[i..][1..] == queries[i + 1..];
        JoinedStep(queries[i..], more);
        MarkedQuery(q);
        after := PutMarked([], Some(queries[i].name), QUERY_TABLE, buffer, after);
        after := PutMarked([EQUALS], queries[i].value, QUERY_TABLE, buffer, after);
        Associates(done, Marked([], Some(q.name), QUERY_TABLE), Marked([EQUALS], q.value, QUERY_TABLE));
        i := i + 1;
        if i < |queries| { after := PutByte(AMPERSAND, buffer, after); }
        assert buffer[..after] == done + QueryText(q) + more;
        Associates(done, QueryText(q), more);
        Associates(done, QueryText(q) + more, JoinedQueries(queries[i..]));
      }
      assert queries[i..] == [];
    }

    /** build_uri, for parts with a scheme */
    method BuildInto(buffer: array<byte>)
      requires scheme.Some? && |Text(Value())| < buffer.Length
      modifies buffer
      ensures buffer[..|Text(Value())| + 1] == Text(Value()) + [0]
    {
      hide Escaped, PathTail, UserinfoText, HostText;
      ghost var p := Value();
      ghost var head := Escaped(scheme.value, SCHEME_TABLE) + [COLON];
      var at := EscapeInto(scheme.value, SCHEME_TABLE, buffer, 0);
      at := PutByte(COLON, buffer, at);
      assert buffer[..at] == head;
      if host.Some? {
        at := PutAuthority(buffer, at);
        ghost var a := [SLASH, SLASH] + (UserinfoText(p) + HostText(host.value, port));
        assert buffer[..at] == head + a;
        Associates(head, a, PathTail(p));
      } else {
        assert SchemeTail(p) == PathTail(p);
      }
      at := PutPathTail(buffer, at);
      assert buffer[..at] == Text(p);
      at := PutByte(0, buffer, at);
    }

    method PutPathTail(buffer: array<byte>, at: nat) returns (after: nat)
      requires at + |PathTail(Value())| <= buffer.Length
      modifies buffer
      ensures after == at + |PathTail(Value())| && buffer[..after] == old(buffer[..at]) + PathTail(Value())
    {
      hide Marked, QueryTail;
      ghost var done := buffer[..at];
      after := PutMarked([], path, PATH_TABLE, buffer, at);
      after := PutQueryTail(buffer, after);
      Associates(done, Marked([], path, PATH_TABLE), QueryTail(Value()));
    }

    method PutAuthority(buffer: array<byte>, at: nat) returns (after: nat)
      requires host.Some? && at + 2 + |UserinfoText(Value())| + |HostText(host.value, port)| <= buffer.Length
      modifies buffer
      ensures after == at + 2 + |UserinfoText(Value())| + |HostText(host.value, port)|
      ensures buffer[..after] == old(buffer[..at]) + ([SLASH, SLASH] + (UserinfoText(Value()) + HostText(host.value, port)))
    {
      hide UserinfoText, HostText;
      ghost var done, u, h := buffer[..at], UserinfoText(Value()), HostText(host.value, port);
      after := PutByte(SLASH, buffer, at);
      after := PutByte(SLASH, buffer, after);
      assert buffer[..after] == done + [SLASH, SLASH];
      after := PutUserinfo(buffer, after);
      Associates(done, [SLASH, SLASH], u);
      after := PutHost(buffer, after);
      Associates(done, [SLASH, SLASH] + u, h);
      Associates([SLASH, SLASH], u, h);
    }

    method PutUserinfo(buffer: array<byte>, at: nat) returns (after: nat)
      requires at + |UserinfoText(Value())| <= buffer.Length
      modifies buffer
      ensures after == at + |UserinfoText(Value())| && buffer[..after] == old(buffer[..at]) + UserinfoText(Value())
    {
      hide Escaped;
      after := at;
      if userinfo.Some? {
        after := EscapeInto(userinfo.value, USERINFO_TABLE, buffer, after);
        after := PutByte(AT, buffer, after);
      }
    }

    method PutHost(buffer: array<byte>, at: nat) returns (after: nat)
      requires host.Some? && at + |HostText(host.value, port)| <= buffer.Length
      modifies buffer
      ensures after == at + |HostText(host.value, port)|
      ensures buffer[..after] == old(buffer[..at]) + HostText(host.value, port)
    {
      hide Escaped, Marked;
      ghost var done := buffer[..at];
      after := EscapeInto(host.value, HOST_TABLE, buffer, at);
      after := PutMarked([COLON], port, PORT_TABLE, buffer, after);
      Associates(done, Escaped(host.value, HOST_TABLE), Marked([COLON], port, PORT_TABLE));
    }

    method PutQueryTail(buffer: array<byte>, at: nat) returns (after: nat)
      requires at + |QueryTail(Value())| <= buffer.Length
      modifies buffer
      ensures after == at + |QueryTail(Value())| && buffer[..after] == old(buffer[..at]) + QueryTail(Value())
    {
      hide Escaped, JoinedQueries;
      ghost var done := buffer[..at];
      after := at;
      if queries != [] {
        after := PutByte(QUESTION, buffer, after);
        after := PutQueries(buffer, after);
      }
      ghost var mid := buffer[..after];
      after := PutMarked([HASH], fragment, FRAGMENT_TABLE, buffer, after);
    }

    /** vc_uri_build: the length returned is that of the text, and the text is written with its
        zero exactly when it fits. */
    method Build(buffer: array?<byte>) returns (length: nat)
      modifies buffer
      ensures length == |Text(Value())|
      ensures buffer != null && length < buffer.Length ==> buffer[..length + 1] == Text(Value()) + [0]
      ensures buffer != null && length >= buffer.Length ==> buffer[..] == old(buffer[..])
    {
      hide Text;
      length := CalculateLength();
      if buffer != null && length < buffer.Length {
        if scheme.Some? {
          BuildInto(buffer);
        } else {
          PutPlainPath(buffer);
        }
      }
    }

    /** build_uri without a scheme: strncpy fills the rest of the buffer with zeros. */
    method PutPlainPath(buffer: array<byte>)
      requires scheme.None? && |Text(Value())| < buffer.Length
      modifies buffer
      ensures buffer[..|Text(Value())| + 1] == Text(Value()) + [0]
      ensures path.Some? ==> forall i :: |path.value| <= i < buffer.Length ==> buffer[i] == 0
    {
      if path.None? {
        buffer[0] := 0;
        return;
      }
      var s := path.value;
      for i := 0 to buffer.Length
        invariant forall k :: 0 <= k < i ==> buffer[k] == (if k < |s| then s[k] else 0)
      {
        buffer[i] := if i < |s| then s[i] else 0;
      }
    }
  }
}
