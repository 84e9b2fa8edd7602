/** Submitting the contact form (`handleFormSubmit`): every field is checked,
    and only a fully valid form is turned into a `mailto:` link and reset. */
module ContactForm {
  import opened Wrappers
  import opened Text
  import opened Validation

  /** The raw, untrimmed values of the form's four fields. */
  datatype Form = Form(name: string, email: string, subject: string, message: string)

  /** The fields in the order the script checks them. */
  const FieldNames: seq<string> := ["name", "email", "subject", "message"]

  /** The values in the same order as `FieldNames`. */
  function Values(f: Form): (vs: seq<string>)
    ensures |vs| == |FieldNames|
  {
    [f.name, f.email, f.subject, f.message]
  }

  /** What `reset` leaves in the form, taking the markup to give no defaults. */
  const EmptyForm := Form([], [], [], [])

  const Recipient := "hanusent@gmail.com"

  /** A line break, already written in its percent-encoded form. */
  const LineBreak := "%0D%0A"

  /** The rules a submittable form meets: every field satisfies its own
      rule, whatever order the script checks them in. */
  ghost predicate Acceptable(f: Form) {
    && Satisfies("name", f.name) && Satisfies("email", f.email)
    && Satisfies("subject", f.subject) && Satisfies("message", f.message)
  }

  /** The body header of the link: the four raw values, labelled, joined with
      line breaks and not encoded. The labels and line breaks hold neither of
      the delimiters `&` and `#`, so the body holds one exactly when a field
      does. */
  function Body(f: Form): (r: string)
    ensures '&' in r <==> '&' in f.name || '&' in f.email || '&' in f.subject || '&' in f.message
    ensures '#' in r <==> '#' in f.name || '#' in f.email || '#' in f.subject || '#' in f.message
  {
    var labels := "Name: " + LineBreak + "Email: " + LineBreak + "Subject: " + LineBreak + LineBreak
      + "Message:" + LineBreak;
    assert '&' !in labels && '#' !in labels;
    "Name: " + f.name + LineBreak + "Email: " + f.email + LineBreak + "Subject: " + f.subject
      + LineBreak + LineBreak + "Message:" + LineBreak + f.message
  }

  /** The link handed to the mail client; `encode` stands for
      `encodeURIComponent`, applied to the subject alone. */
  function MailtoLink(f: Form, encode: string -> string): (r: string)
    // in the terms of RFC 6068: the recipient as the address, then a query
    // of a `subject` field and a `body` field
    ensures r == Scheme + (Recipient + "?" + Query(encode(f.subject), Body(f)))
  {
    "mailto:" + Recipient + "?subject=" + encode(f.subject) + "&body=" + Body(f)
  }

  /** The outcome of one submit: each field's verdict (shown next to it), the
      link opened if any, and the form's contents afterwards. */
  datatype Submission = Submission(verdicts: seq<Verdict>, link: Option<string>, after: Form)

  /** The same rules, field by field: a name and a subject that are not
      blank, an address that matches the email pattern once trimmed, and a
      message of at least ten UTF-16 code units once trimmed. */
  lemma AcceptableByField(f: Form)
    ensures Acceptable(f) <==>
      && Trim(f.name) != []
      && Trim(f.email) != [] && MatchesEmailPattern(Trim(f.email))
      && Trim(f.subject) != []
      && Utf16Length(Trim(f.message)) >= MinMessageLength
  {
    PlainRule("name", f.name);
    PlainRule("subject", f.subject);
  }

  /** The checking loop of `handleFormSubmit`, for a given field check: each
      field is checked in turn and a failure clears the running flag without
      stopping the loop, so that every field's error is shown. */
  method ValidateFields(names: seq<string>, values: seq<string>, check: (string, string) -> Verdict)
    returns (verdicts: seq<Verdict>, isValid: bool)
    requires |names| == |values|
    ensures |verdicts| == |names|
    ensures forall j :: 0 <= j < |names| ==> verdicts[j] == check(names[j], values[j])
    ensures isValid <==> forall j :: 0 <= j < |names| ==> verdicts[j].valid
  {
    isValid := true;
    verdicts := [];
    var i := 0;
    while i < |names|
      invariant 0 <= i <= |names|
      invariant |verdicts| == i
      invariant forall j :: 0 <= j < i ==> verdicts[j] == check(names[j], values[j])
      invariant isValid <==> forall j :: 0 <= j < i ==> verdicts[j].valid
    {
      var v := check(names[i], values[i]);
      verdicts := verdicts + [v];
      if !v.valid {
        isValid := false;
      }
      i := i + 1;
    }
  }

  /** Four verdicts, one per field in order, all pass exactly when the form
      meets the rules. */
  lemma VerdictsPassIffAcceptable(f: Form, verdicts: seq<Verdict>)
    requires |verdicts| == |FieldNames|
    requires forall j :: 0 <= j < |FieldNames| ==> verdicts[j] == Validate(FieldNames[j], Values(f)[j])
    ensures (forall j :: 0 <= j < |verdicts| ==> verdicts[j].valid) <==> Acceptable(f)
  {
    forall j | 0 <= j < |FieldNames|
      ensures verdicts[j].valid <==> Satisfies(FieldNames[j], Values(f)[j])
    {
      ValidIffSatisfies(FieldNames[j], Values(f)[j]);
    }
    FieldRulesInOrder(f, verdicts);
  }

  /** Verdicts that follow the field rules in the order of `FieldNames` all
      pass exactly when the form is acceptable. */
  lemma FieldRulesInOrder(f: Form, verdicts: seq<Verdict>)
    requires |verdicts| == |FieldNames|
    requires forall j :: 0 <= j < |FieldNames| ==> (verdicts[j].valid <==> Satisfies(FieldNames[j], Values(f)[j]))
    ensures (forall j :: 0 <= j < |verdicts| ==> verdicts[j].valid) <==> Acceptable(f)
  {
    assert FieldNames[0] == "name" && Values(f)[0] == f.name;
    assert FieldNames[1] == "email" && Values(f)[1] == f.email;
    assert FieldNames[2] == "subject" && Values(f)[2] == f.subject;
    assert FieldNames[3] == "message" && Values(f)[3] == f.message;
    if Acceptable(f) {
      forall j | 0 <= j < |verdicts| ensures verdicts[j].valid {
        if j == 0 {} else if j == 1 {} else if j == 2 {} else {}
      }
    }
  }

  /** `handleFormSubmit`: only a form whose four fields all pass produces the
      link, and only then is the form reset. */
  method HandleSubmit(f: Form, encode: string -> string) returns (s: Submission)
    ensures |s.verdicts| == |FieldNames|
    ensures forall i :: 0 <= i < |FieldNames| ==> s.verdicts[i] == Validate(FieldNames[i], Values(f)[i])
    ensures s.link.Some? <==> forall i :: 0 <= i < |s.verdicts| ==> s.verdicts[i].valid
    ensures s.link.Some? <==> Acceptable(f)
    ensures s.link.Some? ==> s.link.value == MailtoLink(f, encode) && s.after == EmptyForm
    ensures s.link.None? ==> s.after == f
  {
    var verdicts, isValid := ValidateFields(FieldNames, Values(f), Validate);
    VerdictsPassIffAcceptable(f, verdicts);
    if isValid {
      s := Submission(verdicts, Some(MailtoLink(f, encode)), EmptyForm);
    } else {
      s := Submission(verdicts, None, f);
    }
  }

  /** One header field `hfname=hfvalue` of a mailto URI. */
  datatype HField = HField(name: string, value: string)

  /** A mailto URI split as in section 2 of RFC 6068: the addresses before
      `?`, then header fields separated by `&`. */
  datatype MailtoUri = MailtoUri(to: string, hfields: seq<HField>)

  /** Splits one header field at its first `=`; a field without one is
      malformed. */
  function ParseHField(h: string): (r: Option<HField>)
    ensures r.None? <==> '=' !in h
    ensures r.Some? ==> h == r.value.name + "=" + r.value.value && '=' !in r.value.name
  {
    var e := IndexOf(h, '=');
    if e == |h| then None
    else
      assert '=' !in h[..e] by {
        forall j | 0 <= j < e ensures h[..e][j] != '=' { assert h[..e][j] == h[j]; }
      }
      assert h == h[..e] + "=" + h[e + 1..];
      Some(HField(h[..e], h[e + 1..]))
  }

  /** A field `key=value` reads back as that key and value when the key has
      no `=`. */
  lemma ParseHFieldOf(key: string, value: string)
    requires '=' !in key
    ensures ParseHField(key + "=" + value) == Some(HField(key, value))
    ensures ParseHField(key + ['='] + value) == Some(HField(key, value))
  {
    var h := key + "=" + value;
    assert h == key + ['='] + value;
    IndexOfAfter(key, '=', value);
    assert h[..|key|] == key && h[|key| + 1..] == value;
  }

  /** Reads every header field; one malformed field spoils the whole list. */
  function ParseHFields(parts: seq<string>): (r: Option<seq<HField>>)
    ensures r.Some? ==> |r.value| == |parts|
  {
    if parts == [] then Some([])
    else
      var head := ParseHField(parts[0]);
      var rest := ParseHFields(parts[1..]);
      if head.None? || rest.None? then None
      else Some([head.value] + rest.value)
  }

  /** Header fields read from pieces without `c` have values without `c`. */
  lemma {:induction false} HFieldsKeepOut(parts: seq<string>, c: char)
    requires forall k :: 0 <= k < |parts| ==> c !in parts[k]
    requires ParseHFields(parts).Some?
    ensures forall k :: 0 <= k < |ParseHFields(parts).value| ==> c !in ParseHFields(parts).value[k].value
  {
    if parts != [] {
      var head := ParseHField(parts[0]).value;
      assert parts[0] == head.name + "=" + head.value;
      assert forall k :: 0 <= k < |parts[1..]| ==> parts[1..][k] == parts[k + 1];
      HFieldsKeepOut(parts[1..], c);
    }
  }

  lemma ParseHFieldsPair(a: string, b: string)
    requires ParseHField(a).Some? && ParseHField(b).Some?
    ensures ParseHFields([a, b]) == Some([ParseHField(a).value, ParseHField(b).value])
  {
    var ha, hb := ParseHField(a).value, ParseHField(b).value;
    assert ParseHFields([b]) == Some([hb]) by {
      assert [b][0] == b && [b][1..] == [];
      assert ParseHFields([]) == Some([]);
      assert [hb] + [] == [hb];
    }
    assert [a, b][0] == a && [a, b][1..] == [b];
    assert [ha] + [hb] == [ha, hb];
  }

  const Scheme := "mailto:"

  /** A URI without its fragment: everything before the first `#`, which ends
      the query (section 3.5 of RFC 3986). */
  function WithoutFragment(s: string): (r: string)
    ensures '#' !in r
    ensures |r| <= |s| && r == s[..|r|]
    ensures '#' !in s ==> r == s
  {
    s[..IndexOf(s, '#')]
  }

  /** Reads a `mailto:` URI back into its addresses and header fields. */
  function ParseMailto(uri: string): (r: Option<MailtoUri>)
    ensures r.Some? ==> |uri| >= |Scheme| && uri[..|Scheme|] == Scheme
    ensures r.Some? ==> '?' !in r.value.to
  {
    if |uri| < |Scheme| || uri[..|Scheme|] != Scheme then None
    else ParseAfterScheme(WithoutFragment(uri[|Scheme|..]))
  }

  /** The part after the scheme: addresses up to the first `?`, then the
      header fields. */
  function ParseAfterScheme(rest: string): (r: Option<MailtoUri>)
    ensures r.Some? ==> '?' !in r.value.to
  {
    var q := IndexOf(rest, '?');
    if q == |rest| then Some(MailtoUri(rest, []))
    else
      assert '?' !in rest[..q] by {
        forall j | 0 <= j < q ensures rest[..q][j] != '?' { assert rest[..q][j] == rest[j]; }
      }
      var hs := ParseHFields(SplitOn(rest[q + 1..], '&'));
      if hs.None? then None else Some(MailtoUri(rest[..q], hs.value))
  }

  /** No header value read back from a URI contains the field separator `&`
      or the fragment delimiter `#`. */
  lemma ParsedValuesHaveNoDelimiter(uri: string)
    requires ParseMailto(uri).Some?
    ensures forall k :: 0 <= k < |ParseMailto(uri).value.hfields| ==>
      '&' !in ParseMailto(uri).value.hfields[k].value && '#' !in ParseMailto(uri).value.hfields[k].value
  {
    var rest := WithoutFragment(uri[|Scheme|..]);
    assert ParseMailto(uri) == ParseAfterScheme(rest);
    var q := IndexOf(rest, '?');
    if q < |rest| {
      var query := rest[q + 1..];
      assert '#' !in query;
      assert ParseMailto(uri).value.hfields == ParseHFields(SplitOn(query, '&')).value;
      QueryValuesHaveNoDelimiter(query);
    }
  }

  lemma QueryValuesHaveNoDelimiter(query: string)
    requires '#' !in query
    requires ParseHFields(SplitOn(query, '&')).Some?
    ensures forall k :: 0 <= k < |ParseHFields(SplitOn(query, '&')).value| ==>
      '&' !in ParseHFields(SplitOn(query, '&')).value[k].value
      && '#' !in ParseHFields(SplitOn(query, '&')).value[k].value
  {
    SplitOnKeepsOut(query, '&', '#');
    HFieldsKeepOut(SplitOn(query, '&'), '&');
    HFieldsKeepOut(SplitOn(query, '&'), '#');
  }

  lemma ParseMailtoScheme(rest: string)
    ensures ParseMailto(Scheme + rest) == ParseAfterScheme(WithoutFragment(rest))
  {
    assert (Scheme + rest)[..|Scheme|] == Scheme;
    assert (Scheme + rest)[|Scheme|..] == rest;
  }

  /** The reading the link is meant to have: one address and the two header
      fields `subject` and `body`. */
  function IntendedUri(f: Form, encode: string -> string): MailtoUri {
    MailtoUri(Recipient, [HField("subject", encode(f.subject)), HField("body", Body(f))])
  }

  /** The query of a link: the `subject` field, then the `body` field. */
  function Query(enc: string, body: string): string {
    "subject=" + enc + "&body=" + body
  }

  /** The query splits into its `subject` and `body` pieces when neither
      value contains `&`. */
  lemma SplitQuery(enc: string, body: string)
    requires '&' !in enc && '&' !in body
    ensures SplitOn(Query(enc, body), '&') == ["subject=" + enc, "body=" + body]
  {
    var first, second := "subject=" + enc, "body=" + body;
    NotInAppend("subject=", enc, '&');
    NotInAppend("body=", body, '&');
    assert Query(enc, body) == first + ['&'] + second;
    SplitOnAfter(first, '&', second);
    assert IndexOf(second, '&') == |second|;
  }

  lemma ParseTwoHFields(enc: string, body: string)
    requires '&' !in enc && '&' !in body
    ensures ParseHFields(SplitOn(Query(enc, body), '&'))
         == Some([HField("subject", enc), HField("body", body)])
  {
    var first, second := "subject=" + enc, "body=" + body;
    calc {
      ParseHFields(SplitOn(Query(enc, body), '&'));
      { SplitQuery(enc, body); }
      ParseHFields([first, second]);
      { assert first == "subject" + "=" + enc;
        assert second == "body" + "=" + body;
        ParseHFieldOf("subject", enc);
        ParseHFieldOf("body", body);
        ParseHFieldsPair(first, second); }
      Some([HField("subject", enc), HField("body", body)]);
    }
  }

  /** Addresses `to` and query `query` read back as `to` and the header
      fields of the query. */
  lemma ParseAfterSchemeOf(to: string, query: string)
    requires '?' !in to
    requires ParseHFields(SplitOn(query, '&')).Some?
    ensures ParseAfterScheme(to + "?" + query)
         == Some(MailtoUri(to, ParseHFields(SplitOn(query, '&')).value))
  {
    var rest := to + ['?'] + query;
    assert to + "?" + query == rest;
    IndexOfAfter(to, '?', query);
    assert rest[..|to|] == to;
    assert rest[|to| + 1..] == query;
    var hs := ParseHFields(SplitOn(query, '&'));
    assert ParseAfterScheme(rest) == Some(MailtoUri(to, hs.value));
  }

  lemma ParseQueryAfterScheme(to: string, enc: string, body: string)
    requires '?' !in to
    requires '&' !in enc && '&' !in body
    ensures ParseAfterScheme(to + "?" + Query(enc, body))
         == Some(MailtoUri(to, [HField("subject", enc), HField("body", body)]))
  {
    ParseTwoHFields(enc, body);
    ParseAfterSchemeOf(to, Query(enc, body));
  }

  /** A link to any address without `?` or `#` whose encoded subject and
      body have no `&` or `#` reads back as that address with a `subject` and
      a `body` header. */
  lemma ReadsBack(to: string, enc: string, body: string)
    requires '?' !in to && '#' !in to
    requires '&' !in enc && '&' !in body
    requires '#' !in enc && '#' !in body
    ensures ParseMailto(Scheme + (to + "?" + Query(enc, body)))
         == Some(MailtoUri(to, [HField("subject", enc), HField("body", body)]))
  {
    var rest := to + "?" + Query(enc, body);
    assert '#' !in rest;
    ParseMailtoScheme(rest);
    ParseQueryAfterScheme(to, enc, body);
  }

  /** When neither the encoded subject nor any raw field contains `&` or `#`,
      the link reads back as the recipient with exactly a `subject` and a
      `body` header, carrying the encoded subject and the composed body. */
  lemma LinkReadsBack(f: Form, encode: string -> string)
    requires '&' !in encode(f.subject) && '#' !in encode(f.subject)
    requires '&' !in Body(f) && '#' !in Body(f)
    ensures ParseMailto(MailtoLink(f, encode)) == Some(IntendedUri(f, encode))
  {
    assert '?' !in Recipient && '#' !in Recipient;
    ReadsBack(Recipient, encode(f.subject), Body(f));
  }

  /** The body header is not encoded, so an `&` or a `#` typed into any field
      ends the body header early: no header the link reads back as is the
      body the script composed. */
  lemma RawDelimiterCutsBody(f: Form, encode: string -> string)
    requires '&' in Body(f) || '#' in Body(f)
    ensures var r := ParseMailto(MailtoLink(f, encode));
      r.Some? ==> forall k :: 0 <= k < |r.value.hfields| ==> r.value.hfields[k].value != Body(f)
    ensures ParseMailto(MailtoLink(f, encode)) != Some(IntendedUri(f, encode))
  {
    if ParseMailto(MailtoLink(f, encode)).Some? {
      ParsedValuesHaveNoDelimiter(MailtoLink(f, encode));
    }
    assert IntendedUri(f, encode).hfields[1].value == Body(f);
  }

  /** The body starts with the raw name and ends with the raw message, so
      neither is trimmed or encoded, and the name comes first. */
  lemma BodyKeepsRawValues(f: Form)
    ensures Body(f)[..6 + |f.name|] == "Name: " + f.name
    ensures Body(f)[|Body(f)| - |f.message|..] == f.message
  {
    var tailPart := LineBreak + "Email: " + f.email + LineBreak + "Subject: " + f.subject
      + LineBreak + LineBreak + "Message:" + LineBreak;
    assert Body(f) == ("Name: " + f.name) + tailPart + f.message;
  }
}
