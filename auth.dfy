/** The `Authenticator` decorator of the asynchronous server: it splits an
    `Authorization: AWS <access key>:<signature>` header and lets the wrapped handler run
    when the header has that shape. `_authenticate` answers `True` for every key and
    signature, and its answer is only logged, so the shape alone decides. */
module Auth {

  import opened Base

  /** The characters Python 2's `str.split()` separates on. */
  predicate IsSpace(c: char) {
    c == ' ' || c == '\t' || c == '\n' || c == '\r' || c == '\U{B}' || c == '\U{C}'
  }

  predicate NoSpace(w: string) {
    forall i :: 0 <= i < |w| ==> !IsSpace(w[i])
  }

  /** The length of the run of non-space characters `s` starts with. */
  function TokenLength(s: string): (n: nat)
    ensures n <= |s| && NoSpace(s[..n]) && (n < |s| ==> IsSpace(s[n]))
    decreases |s|
  {
    if s == [] || IsSpace(s[0]) then 0
    else
      var n := TokenLength(s[1..]);
      assert s[..n + 1] == [s[0]] + s[1..][..n];
      n + 1
  }

  /** `s.split()`: the maximal runs of non-space characters, in order. */
  function Words(s: string): seq<string>
    decreases |s|
  {
    if s == [] then []
    else if IsSpace(s[0]) then Words(s[1..])
    else
      var n := TokenLength(s);
      [s[..n]] + Words(s[n..])
  }

  /** Words are non-empty and hold no space. */
  lemma {:induction false} WordsAreWords(s: string)
    ensures forall j :: 0 <= j < |Words(s)| ==> Words(s)[j] != [] && NoSpace(Words(s)[j])
    decreases |s|
  {
    if s != [] {
      if IsSpace(s[0]) {
        WordsAreWords(s[1..]);
      } else {
        WordsAreWords(s[TokenLength(s)..]);
      }
    }
  }

  /** `' '.join(ws)`. */
  function Unwords(ws: seq<string>): string
    decreases |ws|
  {
    if ws == [] then "" else if |ws| == 1 then ws[0] else ws[0] + " " + Unwords(ws[1..])
  }

  lemma TokenOfWord(w: string, rest: string)
    requires w != [] && NoSpace(w) && (rest == [] || IsSpace(rest[0]))
    ensures TokenLength(w + rest) == |w|
    decreases |w|
  {
    if |w| > 1 {
      assert (w + rest)[1..] == w[1..] + rest;
      TokenOfWord(w[1..], rest);
    } else {
      assert (w + rest)[1..] == rest;
    }
  }

  /** Splitting words joined by single spaces gives the words back. */
  lemma {:induction false} WordsOfUnwords(ws: seq<string>)
    requires forall j :: 0 <= j < |ws| ==> ws[j] != [] && NoSpace(ws[j])
    ensures Words(Unwords(ws)) == ws
    decreases |ws|
  {
    if |ws| == 1 {
      var w := ws[0];
      TokenOfWord(w, []);
      assert w + [] == w && w[..|w|] == w && w[|w|..] == [];
    } else if |ws| > 1 {
      var w, rest := ws[0], Unwords(ws[1..]);
      var s := w + " " + rest;
      assert s == w + (" " + rest);
      TokenOfWord(w, " " + rest);
      assert s[..|w|] == w && s[|w|..] == " " + rest;
      assert (" " + rest)[1..] == rest;
      WordsOfUnwords(ws[1..]);
      assert ws == [w] + ws[1..];
    }
  }

  /** The position of the first `:` in `s`. */
  function FirstColon(s: string): (r: Option<nat>)
    ensures r.Some? ==> r.value < |s| && s[r.value] == ':' && ':' !in s[..r.value]
    ensures r.None? ==> ':' !in s
    decreases |s|
  {
    if s == [] then None
    else if s[0] == ':' then Some(0)
    else
      var r := FirstColon(s[1..]);
      if r.None? then None
      else
        assert s[..r.value + 1] == [s[0]] + s[1..][..r.value];
        Some(r.value + 1)
  }

  /** `s.split(":", 1)` unpacked into two names: `ValueError` when there is no `:`. */
  function SplitColon(s: string): Result<(string, string)> {
    var i := FirstColon(s);
    if i.None? then Err(ValueError) else Ok((s[..i.value], s[i.value + 1..]))
  }

  /** The split is at the first colon, and it is undone by joining with one. */
  lemma SplitColonExactly(s: string, key: string, sig: string)
    ensures SplitColon(s).Err? <==> ':' !in s
    ensures SplitColon(s) == Ok((key, sig)) <==> s == key + ":" + sig && ':' !in key
  {
    if s == key + ":" + sig && ':' !in key {
      assert s[|key|] == ':' && s[..|key|] == key && s[|key| + 1..] == sig;
    }
    var i := FirstColon(s);
    if i.Some? {
      assert s == s[..i.value] + ":" + s[i.value + 1..];
    }
  }

  datatype Credentials = Credentials(accessKey: string, signature: string)

  /** The `try` block: look the header up, split it into a type and data, require type
      `AWS`, split the data at its first `:`. The error is the exception Python raises. */
  function ParseAuthorization(header: Option<string>): (r: Result<Credentials>)
    ensures r.Ok? <==> header.Some? && |Words(header.value)| == 2 && Words(header.value)[0] == "AWS"
                       && ':' in Words(header.value)[1]
    ensures header.None? ==> r == Err(KeyError)
  {
    if header.None? then Err(KeyError)
    else
      var ws := Words(header.value);
      if |ws| != 2 then Err(ValueError)
      else if ws[0] != "AWS" then Err(AssertionError)
      else
        var kv := SplitColon(ws[1]);
        SplitColonExactly(ws[1], "", "");
        if kv.Err? then Err(ValueError) else Ok(Credentials(kv.value.0, kv.value.1))
  }

  /** `_authenticate(access_key, signed_string)`. */
  function Authenticate(c: Credentials): (ok: bool)
    ensures ok
  {
    true
  }

  /** What the decorator does with a request. */
  datatype Outcome =
    | Proceed(creds: Credentials)   // the wrapped handler runs
    | Challenge                     // 401 with `WWW-Authenticate: AWS realm="otto"`

  /** The decorator as written: the `except` branch names `cyclone.web`, but the module only
      bound `web`, so every failed check raises `NameError` instead of the 401. */
  function AuthenticatorAsWritten(header: Option<string>): Result<Outcome> {
    var c := ParseAuthorization(header);
    if c.Ok? then Ok(Proceed(c.value)) else Err(NameError)
  }

  /** The decorator as intended: a failed check answers with the authentication challenge. */
  function Authenticator(header: Option<string>): (r: Outcome)
    ensures r.Proceed? <==> ParseAuthorization(header).Ok?
    ensures r.Proceed? ==> r.creds == ParseAuthorization(header).value && Authenticate(r.creds)
  {
    var c := ParseAuthorization(header);
    if c.Ok? then Proceed(c.value) else Challenge
  }

  /** The request a signing client sends is let through with its key and signature: `AWS`,
      one space, then key and signature joined at a colon. */
  lemma SignedHeaderProceeds(key: string, sig: string)
    requires ':' !in key && NoSpace(key) && NoSpace(sig)
    ensures Authenticator(Some("AWS " + key + ":" + sig)) == Proceed(Credentials(key, sig))
    ensures AuthenticatorAsWritten(Some("AWS " + key + ":" + sig)) == Ok(Proceed(Credentials(key, sig)))
  {
    var data := key + ":" + sig;
    ColonJoinHasNoSpace(key, sig);
    AwsWords(data);
    assert "AWS " + key + ":" + sig == "AWS " + data;
    SplitColonExactly(data, key, sig);
  }

  lemma ColonJoinHasNoSpace(key: string, sig: string)
    requires NoSpace(key) && NoSpace(sig)
    ensures NoSpace(key + ":" + sig)
  {
    var data := key + ":" + sig;
    forall i | 0 <= i < |data| ensures !IsSpace(data[i]) {
      if i < |key| {
        assert data[i] == key[i];
      } else if i > |key| {
        assert data[i] == sig[i - |key| - 1];
      }
    }
  }

  lemma AwsWords(data: string)
    requires data != [] && NoSpace(data)
    ensures Words("AWS " + data) == ["AWS", data]
  {
    assert NoSpace("AWS");
    assert Unwords(["AWS", data]) == "AWS" + " " + Unwords([data]);
    assert "AWS " + data == Unwords(["AWS", data]);
    WordsOfUnwords(["AWS", data]);
  }

  /** Every malformed header makes the decorator as written raise `NameError`, where the
      intended decorator challenges. */
  lemma FailedCheckRaises(header: Option<string>)
    requires ParseAuthorization(header).Err?
    ensures AuthenticatorAsWritten(header) == Err(NameError)
    ensures Authenticator(header) == Challenge
  {
  }

  /** A concrete case: a request with no `Authorization` header. */
  lemma MissingHeaderRaisesNameError()
    ensures ParseAuthorization(None) == Err(KeyError)
    ensures AuthenticatorAsWritten(None) == Err(NameError)
    ensures Authenticator(None) == Challenge
  {
  }
}
