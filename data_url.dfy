/**
 * The data-URL prefix strip applied to every uploaded image before it is
 * base64-decoded: `data.split(',')[1] if ',' in data else data`.
 */
module DataUrl {
  import opened Strings

  /** The base64 payload of an uploaded image string. */
  function StripDataUrlPrefix(data: string): (r: string)
    ensures ',' !in data ==> r == data
    ensures ',' in data ==> ',' !in r
  {
    if ',' in data then
      SplitPieces(data, ',');
      Split(data, ',')[1]
    else data
  }

  /**
   * With a comma present, the payload is the text after the first comma,
   * up to the second comma or the end of the string.
   */
  lemma PayloadAfterFirstComma(data: string)
    requires ',' in data
    ensures var i, r := IndexOf(data, ','), StripDataUrlPrefix(data);
      var e := i + 1 + |r|;
      && e <= |data|
      && r == data[i + 1..e]
      && (e == |data| || data[e] == ',')
  {
    var i := IndexOf(data, ',');
    var t := data[i + 1..];
    PayloadIsSecondPiece(data);
    SplitHead(t, ',');
    SliceAfter(data, i, Split(t, ',')[0]);
  }

  /** A prefix of the text after position `i` that ends at a comma or at the end. */
  lemma SliceAfter(data: string, i: nat, h: string)
    requires i < |data| && |h| <= |data| - i - 1
    requires h == data[i + 1..][..|h|]
    requires |h| == |data| - i - 1 || data[i + 1..][|h|] == ','
    ensures var e := i + 1 + |h|;
      && e <= |data|
      && h == data[i + 1..e]
      && (e == |data| || data[e] == ',')
  {
  }

  lemma PayloadIsSecondPiece(data: string)
    requires ',' in data
    ensures StripDataUrlPrefix(data) == Split(data[IndexOf(data, ',') + 1..], ',')[0]
  {
    SplitAtFirst(data, ',');
  }

  /**
   * A data URL `header,payload` (with no comma in the header or the payload)
   * yields exactly its payload, and so does a bare payload without a comma.
   */
  lemma DataUrlRoundTrip(header: string, payload: string)
    requires ',' !in header && ',' !in payload
    ensures StripDataUrlPrefix(header + [','] + payload) == payload
    ensures StripDataUrlPrefix(payload) == payload
  {
    var data := header + [','] + payload;
    assert data[|header|] == ',';
    assert data == header + ([','] + payload);
    SplitFreePrefix(header, [','] + payload, ',');
    assert ([','] + payload)[1..] == payload;
    SplitFreePrefix(payload, [], ',');
    assert payload + [] == payload;
  }
}
