/** Building a URI object into a buffer and parsing what the buffer then holds into another. */
module UriRebuilt {
  import opened Basics
  import opened UriText
  import opened UriRoundTrip
  import opened Uri

  lemma TextInBuffer(text: Bytes, buffer: Bytes)
    requires IsCString(text) && |text| < |buffer| && buffer[..|text| + 1] == text + [0]
    ensures CString(buffer) == text
  {
    assert text == (text + [0])[..|text|] == buffer[..|text|];
    assert buffer[|text|] == (text + [0])[|text|];
    CStringIs(buffer, |text|);
  }

  /** vc_uri_build, then vc_uri_parse: when the text fits the buffer, the new object holds what the
      old one does exactly when its parts are of the kind that comes back. */
  method BuildAndParse(u: Uri, buffer: array<byte>) returns (fits: bool, v: Uri)
    requires CStrings(u.Value())
    modifies buffer
    ensures fresh(v) && u.Value() == old(u.Value())
    ensures fits <==> |Text(u.Value())| < buffer.Length
    ensures fits ==> (v.Value() == u.Value() <==> Rebuilt(u.Value()))
  {
    hide Text, Rebuilt, ParseText, CString;
    v := new Uri();
    var length := u.Build(buffer);
    fits := length < buffer.Length;
    if fits {
      TextIsCString(u.Value());
      TextInBuffer(Text(u.Value()), buffer[..]);
      BuildThenParse(u.Value());
      var text := ReadCString(buffer);
      v.Parse(text);
    }
  }
}
