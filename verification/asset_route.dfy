/** The `/assets/<string>` route of `WebServer`: serve a file from the
    front-end build, choosing a Content-Type by substring tests on the file
    name, first match wins. Reading the file is left to the caller: an empty
    `content` stands for a missing or empty file. */
module AssetRoute {
  import opened Wrappers
  import opened Text

  /** One MIME rule: the file name contains one of `patterns`. */
  datatype Rule = Rule(patterns: seq<string>, mime: string)

  /** The response the route writes: status code, body and the Content-Type
      header if one was set. Crow's default status is 200. */
  datatype Response = Response(code: int, body: string, contentType: Option<string>)

  predicate Matches(rule: Rule, filename: string)
  {
    exists i :: 0 <= i < |rule.patterns| && Contains(filename, rule.patterns[i])
  }

  /** The MIME type of the first rule the file name matches. */
  function FirstMatch(rules: seq<Rule>, filename: string): (m: Option<string>)
  {
    if rules == [] then None
    else if Matches(rules[0], filename) then Some(rules[0].mime)
    else FirstMatch(rules[1..], filename)
  }

  /** First-match selection picks the MIME type of the earliest matching
      rule, and nothing when no rule matches. */
  lemma {:induction false} FirstMatchSpec(rules: seq<Rule>, filename: string)
    ensures var m := FirstMatch(rules, filename);
      && (m.None? <==> forall k :: 0 <= k < |rules| ==> !Matches(rules[k], filename))
      && (m.Some? ==> exists k :: 0 <= k < |rules| && Matches(rules[k], filename)
                       && rules[k].mime == m.value
                       && forall j :: 0 <= j < k ==> !Matches(rules[j], filename))
  {
    if rules != [] && !Matches(rules[0], filename) {
      FirstMatchSpec(rules[1..], filename);
      assert forall k :: 1 <= k < |rules| ==> rules[k] == rules[1..][k - 1];
      var m := FirstMatch(rules, filename);
      if m.Some? {
        var k :| 0 <= k < |rules[1..]| && Matches(rules[1..][k], filename)
                 && rules[1..][k].mime == m.value
                 && forall j :: 0 <= j < k ==> !Matches(rules[1..][j], filename);
        assert Matches(rules[k + 1], filename) && rules[k + 1].mime == m.value;
        assert forall j :: 0 <= j < k + 1 ==> !Matches(rules[j], filename) by {
          forall j | 0 <= j < k + 1 ensures !Matches(rules[j], filename) {
            if j > 0 {
              assert rules[j] == rules[1..][j - 1];
            }
          }
        }
      }
    }
  }

  /** The rule table of `src/WebServer.cpp`, in the order it is tested. */
  const Rules: seq<Rule> := [
    Rule([".js"], "application/javascript"),
    Rule([".css"], "text/css"),
    Rule([".png"], "image/png"),
    Rule([".jpg", ".jpeg"], "image/jpeg"),
    Rule([".svg"], "image/svg+xml")
  ]

  /** The rule table of the root `WebServer.cpp`: only the first two. */
  const LegacyRules: seq<Rule> := Rules[..2]

  /** The `if / else if` chain of `src/WebServer.cpp`. */
  function MimeType(filename: string): (m: Option<string>)
    ensures m.None? <==> !Contains(filename, ".js") && !Contains(filename, ".css") && !Contains(filename, ".png")
                         && !Contains(filename, ".jpg") && !Contains(filename, ".jpeg") && !Contains(filename, ".svg")
    ensures m.Some? ==> m.value in ["application/javascript", "text/css", "image/png", "image/jpeg", "image/svg+xml"]
  {
    if Contains(filename, ".js") then Some("application/javascript")
    else if Contains(filename, ".css") then Some("text/css")
    else if Contains(filename, ".png") then Some("image/png")
    else if Contains(filename, ".jpg") || Contains(filename, ".jpeg") then Some("image/jpeg")
    else if Contains(filename, ".svg") then Some("image/svg+xml")
    else None
  }

  /** The `if / else if` chain of the root `WebServer.cpp`. */
  function LegacyMimeType(filename: string): (m: Option<string>)
    ensures m.None? <==> !Contains(filename, ".js") && !Contains(filename, ".css")
    ensures m.Some? ==> m.value in ["application/javascript", "text/css"]
  {
    if Contains(filename, ".js") then Some("application/javascript")
    else if Contains(filename, ".css") then Some("text/css")
    else None
  }

  /** The chain is first-match selection over the rule table. */
  lemma MimeTypeIsFirstMatch(filename: string)
    ensures MimeType(filename) == FirstMatch(Rules, filename)
    ensures LegacyMimeType(filename) == FirstMatch(LegacyRules, filename)
  {
    var f := filename;
    var r0, r1, r2, r3, r4 := Rules[0], Rules[1], Rules[2], Rules[3], Rules[4];
    OneRule(".js", "application/javascript", f);
    OneRule(".css", "text/css", f);
    OneRule(".png", "image/png", f);
    TwoRule(".jpg", ".jpeg", "image/jpeg", f);
    OneRule(".svg", "image/svg+xml", f);
    var none: seq<Rule> := [];
    var t4 := [r4] + none;
    var t3 := [r3] + t4;
    var t2 := [r2] + t3;
    var t1 := [r1] + t2;
    assert Rules == [r0] + t1;
    FirstMatchCons(r4, none, f);
    FirstMatchCons(r3, t4, f);
    FirstMatchCons(r2, t3, f);
    FirstMatchCons(r1, t2, f);
    FirstMatchCons(r0, t1, f);
    var l1 := [r1] + none;
    assert LegacyRules == [r0] + l1;
    FirstMatchCons(r1, none, f);
    FirstMatchCons(r0, l1, f);
  }

  lemma FirstMatchCons(rule: Rule, rest: seq<Rule>, filename: string)
    ensures FirstMatch([rule] + rest, filename)
            == if Matches(rule, filename) then Some(rule.mime) else FirstMatch(rest, filename)
  {
    assert ([rule] + rest)[1..] == rest;
  }

  lemma OneRule(p: string, mime: string, filename: string)
    ensures Matches(Rule([p], mime), filename) <==> Contains(filename, p)
  {
    if Contains(filename, p) {
      assert [p][0] == p;
    }
  }

  lemma TwoRule(p: string, q: string, mime: string, filename: string)
    ensures Matches(Rule([p, q], mime), filename) <==> Contains(filename, p) || Contains(filename, q)
  {
    if Contains(filename, p) {
      assert [p, q][0] == p;
    }
    if Contains(filename, q) {
      assert [p, q][1] == q;
    }
  }

  /** `.js` is tested first, so it wins over every later rule: "x.json" and
      "a.js.png" are served as JavaScript. */
  lemma JavaScriptFirst(filename: string)
    requires Contains(filename, ".js")
    ensures MimeType(filename) == Some("application/javascript")
    ensures LegacyMimeType(filename) == Some("application/javascript")
  {
  }

  /** Whatever the older chain types, the newer one types the same way; the
      newer one only adds types for names the older one left untyped. */
  lemma NewerRefinesOlder(filename: string)
    ensures LegacyMimeType(filename).Some? ==> MimeType(filename) == LegacyMimeType(filename)
    ensures MimeType(filename).Some? && LegacyMimeType(filename).None? ==>
              MimeType(filename).value in ["image/png", "image/jpeg", "image/svg+xml"]
  {
  }

  /** The asset route. */
  function ServeAsset(filename: string, content: string): (r: Response)
    ensures content == [] ==> r == Response(404, "Not Found", None)
    ensures content != [] ==> r.code == 200 && r.body == content
    ensures content != [] ==> r.contentType == FirstMatch(Rules, filename)
  {
    MimeTypeIsFirstMatch(filename);
    if content == [] then Response(404, "Not Found", None)
    else Response(200, content, MimeType(filename))
  }

  /** The asset route of the root `WebServer.cpp`. */
  function LegacyServeAsset(filename: string, content: string): (r: Response)
    ensures content == [] ==> r == Response(404, "Not Found", None)
    ensures content != [] ==> r.code == 200 && r.body == content
    ensures content != [] ==> r.contentType == FirstMatch(LegacyRules, filename)
  {
    MimeTypeIsFirstMatch(filename);
    if content == [] then Response(404, "Not Found", None)
    else Response(200, content, LegacyMimeType(filename))
  }

  /** Names from the front-end build: a ".json" or ".js.png" name is typed
      as JavaScript. */
  lemma JavaScriptExamples()
    ensures MimeType("x.json") == Some("application/javascript")
    ensures MimeType("a.js.png") == Some("application/javascript")
  {
    ContainsAt("x.json", ".js");
    assert OccursAt("x.json", ".js", 1);
    ContainsAt("a.js.png", ".js");
    assert OccursAt("a.js.png", ".js", 1);
  }

  /** A PNG is typed only by the newer chain. */
  lemma PngExample()
    ensures MimeType("logo.png") == Some("image/png")
    ensures LegacyMimeType("logo.png") == None
  {
    var f := "logo.png";
    assert 'j' !in f && 'c' !in f;
    MissingCharNotContained(f, ".js", 1);
    MissingCharNotContained(f, ".css", 1);
    ContainsAt(f, ".png");
    assert OccursAt(f, ".png", 4);
  }
}
