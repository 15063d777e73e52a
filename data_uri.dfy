/** The signature arrives as a data URI, `data:image/<type>;base64,<payload>`.
    The handler takes `signature.split(',')[1]`: the second comma-separated
    field, which fails with an index error when the text has no comma. */
module DataUri {
  import opened Outcomes

  /** Occurrences of `sep` in `s`. */
  function CountOf(s: string, sep: char): nat
  {
    if s == [] then 0 else (if s[0] == sep then 1 else 0) + CountOf(s[1..], sep)
  }

  /** Python's `s.split(sep)` for a one-character separator: the maximal
      separator-free runs between separators, empty ones included. */
  function Split(s: string, sep: char): (fields: seq<string>)
    ensures |fields| == CountOf(s, sep) + 1
    ensures forall i :: 0 <= i < |fields| ==> sep !in fields[i]
  {
    if s == [] then [""]
    else
      var rest := Split(s[1..], sep);
      if s[0] == sep then [""] + rest
      else [[s[0]] + rest[0]] + rest[1..]
  }

  /** Python's `sep.join(fields)`. */
  function Join(fields: seq<string>, sep: char): string
    requires |fields| >= 1
  {
    if |fields| == 1 then fields[0] else fields[0] + [sep] + Join(fields[1..], sep)
  }

  /** The payload of a signature data URI: its second comma-separated field. */
  function SignaturePayload(signature: string): (r: Result<string>)
    ensures r.Success? <==> ',' in signature
    ensures r.Success? ==> ',' !in r.value
    ensures r.Failure? ==> r.error == InvalidSignatureData
  {
    var fields := Split(signature, ',');
    if |fields| < 2 then
      CountOfZero(signature, ',');
      Failure(InvalidSignatureData)
    else
      CountOfZero(signature, ',');
      Success(fields[1])
  }

  lemma {:induction false} CountOfZero(s: string, sep: char)
    ensures CountOf(s, sep) == 0 <==> sep !in s
  {
    if s != [] {
      CountOfZero(s[1..], sep);
      assert s == [s[0]] + s[1..];
    }
  }

  /** Splitting loses nothing: joining the fields gives the text back. */
  lemma {:induction false} JoinSplit(s: string, sep: char)
    ensures Join(Split(s, sep), sep) == s
  {
    if s != [] {
      var rest := Split(s[1..], sep);
      JoinSplit(s[1..], sep);
      if s[0] == sep {
        assert ([""] + rest)[1..] == rest;
      } else if |rest| == 1 {
      } else {
        var fields := [[s[0]] + rest[0]] + rest[1..];
        assert fields[1..] == rest[1..];
        assert Join(rest, sep) == rest[0] + [sep] + Join(rest[1..], sep);
      }
    }
  }

  /** A separator-free prefix becomes the start of the first field. */
  lemma {:induction false} SplitPrefix(a: string, sep: char, t: string)
    requires sep !in a
    ensures Split(a + t, sep) == [a + Split(t, sep)[0]] + Split(t, sep)[1..]
  {
    if a != [] {
      var st := Split(t, sep);
      var rest := Split(a[1..] + t, sep);
      SplitPrefix(a[1..], sep, t);
      assert rest == [a[1..] + st[0]] + st[1..];
      assert (a + t)[0] == a[0] != sep;
      assert (a + t)[1..] == a[1..] + t;
      assert Split(a + t, sep) == [[a[0]] + rest[0]] + rest[1..];
      assert rest[0] == a[1..] + st[0];
      assert rest[1..] == st[1..];
      assert a == [a[0]] + a[1..];
      assert [a[0]] + rest[0] == a + st[0];
    } else {
      var st := Split(t, sep);
      assert a + t == t;
      assert a + st[0] == st[0];
      assert st == [st[0]] + st[1..];
    }
  }

  /** Fields free of the separator come back unchanged from a join and a split. */
  lemma {:induction false} SplitJoin(fields: seq<string>, sep: char)
    requires |fields| >= 1
    requires forall i :: 0 <= i < |fields| ==> sep !in fields[i]
    ensures Split(Join(fields, sep), sep) == fields
  {
    if |fields| == 1 {
      SplitPrefix(fields[0], sep, []);
      assert fields[0] + [] == fields[0];
      assert Split([], sep) == [""];
      assert fields[0] + "" == fields[0];
      assert [fields[0]] == fields;
    } else {
      var tail := Join(fields[1..], sep);
      SplitJoin(fields[1..], sep);
      SplitPrefix(fields[0], sep, [sep] + tail);
      assert ([sep] + tail)[0] == sep;
      assert ([sep] + tail)[1..] == tail;
      var after := Split([sep] + tail, sep);
      assert after == [""] + fields[1..];
      assert after[1..] == fields[1..];
      assert fields[0] + after[0] == fields[0];
      assert Join(fields, sep) == fields[0] + ([sep] + tail);
      assert fields == [fields[0]] + fields[1..];
    }
  }

  /** The payload is exactly the text between the first comma and the next
      comma (or the end of the text). */
  lemma PayloadBetweenCommas(signature: string, i: nat, j: nat)
    requires i < j <= |signature|
    requires signature[i] == ',' && ',' !in signature[..i]
    requires ',' !in signature[i + 1..j]
    requires j == |signature| || signature[j] == ','
    ensures SignaturePayload(signature) == Success(signature[i + 1..j])
  {
    var s := signature;
    var c := Split(s[j..], ',');
    if j < |s| {
      assert s[j..] == [','] + s[j + 1..];
      assert s[j..][0] == ',';
    }
    assert c[0] == "";
    var b := Split(s[i + 1..], ',');
    SplitPrefix(s[i + 1..j], ',', s[j..]);
    assert s[i + 1..j] + s[j..] == s[i + 1..];
    assert b[0] == s[i + 1..j] + c[0] == s[i + 1..j];
    var a := Split(s[i..], ',');
    assert s[i..][0] == ',' && s[i..][1..] == s[i + 1..];
    assert a == [""] + b;
    SplitPrefix(s[..i], ',', s[i..]);
    assert s[..i] + s[i..] == s;
    var fields := Split(s, ',');
    assert fields == [s[..i] + a[0]] + a[1..];
    assert |fields| >= 2 && fields[1] == b[0];
  }

  /** A well-formed data URI, a comma-free header and a comma-free payload,
      yields its payload. */
  lemma DataUriPayload(header: string, payload: string)
    requires ',' !in header && ',' !in payload
    ensures SignaturePayload(header + "," + payload) == Success(payload)
  {
    SplitJoin([header, payload], ',');
    assert Join([header, payload], ',') == header + "," + payload;
  }
}
