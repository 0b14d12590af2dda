/** Page tokens: a cursor as JSON, as UTF-8, as URL-safe base64, and back. */
module PageTokens {
  import opened Common
  import opened Pagination
  import Base64
  import Utf8

  /** What parsing a token's text can give: a value that is no object, or an object with the two fields as found. */
  datatype Parsed = Malformed | NoObject | Fields(at: Option<int>, id: Option<string>)

  /** JSON, with characters as code points. */
  datatype Json = Json(render: Cursor -> Utf8.Text, parse: Utf8.Text -> Parsed)

  datatype Token = Good(cursor: Cursor) | InvalidPageToken

  function EncodeCursor(json: Json, cursor: Cursor): string {
    Base64.UrlEncode(Utf8.Encode(json.render(cursor)))
  }

  /** A token with no time, or with an empty id, is as invalid as one that does not decode. */
  function DecodeCursor(json: Json, token: string): Token {
    var bytes := Base64.UrlDecode(token);
    if bytes.None? then InvalidPageToken
    else
      var text := Utf8.Read(bytes.value);
      if text.None? then InvalidPageToken
      else
        match json.parse(text.value)
        case Fields(Some(at), Some(id)) => if id == "" then InvalidPageToken else Good(Cursor(at, id))
        case _ => InvalidPageToken
  }

  /** Parsing undoes rendering, and what is rendered starts with a brace. */
  ghost predicate Inverse(json: Json) {
    forall c :: json.parse(json.render(c)) == Fields(Some(c.at), Some(c.id))
             && json.render(c) != [] && json.render(c)[0] == '{' as int
  }

  /** A token leads back to its cursor exactly when the cursor names a row. */
  lemma TokenRoundTrip(json: Json, cursor: Cursor)
    requires Inverse(json)
    ensures DecodeCursor(json, EncodeCursor(json, cursor)) == Good(cursor) <==> cursor.id != ""
  {
    var text := json.render(cursor);
    Base64.UrlRoundTrip(Utf8.Encode(text));
    Utf8.RoundTrip(text);
    assert json.parse(text) == Fields(Some(cursor.at), Some(cursor.id)) && text[0] != Utf8.BOM;
  }
}
