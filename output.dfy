/** HTML report generation (`generate_html`, src/output.rs:27-68).  The
    embedded frontend assets come in as a sequence of (file name, decoded
    text) pairs in the embedding's iteration order, and the graph's JSON
    serialization comes in as a string. */
module Output {
  import opened Wrappers
  import opened Strings

  datatype Asset = Asset(name: string, data: string)

  const JsSuffix: string := ".js"
  const CssSuffix: string := ".css"
  const NoJs: string := "no .js asset found in frontend/dist/assets"
  const NoCss: string := "no .css asset found in frontend/dist/assets"

  /** The sequence that would end the inline data script early, and what it
      is rewritten to: `\/` reads back as `/` inside a JSON string. */
  const ScriptClose: string := "</script"
  const EscapedClose: string := "<\\/script"

  /** The index of the last asset whose name ends with `suffix`. */
  function LastWith(assets: seq<Asset>, suffix: string): (r: Option<nat>)
    ensures r.Some? ==> r.value < |assets| && EndsWith(assets[r.value].name, suffix)
    ensures r.Some? ==> forall j :: r.value < j < |assets| ==> !EndsWith(assets[j].name, suffix)
    ensures r.None? ==> forall j :: 0 <= j < |assets| ==> !EndsWith(assets[j].name, suffix)
  {
    if assets == [] then None
    else if EndsWith(assets[|assets| - 1].name, suffix) then Some(|assets| - 1)
    else LastWith(assets[..|assets| - 1], suffix)
  }

  function DataOf(assets: seq<Asset>, at: Option<nat>): Option<string>
    requires at.Some? ==> at.value < |assets|
  {
    if at.None? then None else Some(assets[at.value].data)
  }

  /** A name ending in `.js` never ends in `.css`, so the `else` on the css
      branch never hides a stylesheet. */
  lemma ScriptIsNotStylesheet(name: string)
    requires EndsWith(name, JsSuffix)
    ensures !EndsWith(name, CssSuffix)
  {
    assert name[|name| - 2] == 'j';
  }

  /** `graph_json.replace("</script", "<\\/script")` */
  function EscapeScriptClose(json: string): string
  {
    Replace(json, ScriptClose, EscapedClose)
  }

  const PageHead: string :=
    "<!DOCTYPE html>\n<html lang=\"en\">\n<head>\n<meta charset=\"UTF-8\" />\n"
    + "<meta name=\"viewport\" content=\"width=device-width, initial-scale=1.0\" />\n"
    + "<title>cargo goodtimes</title>\n<style>"
  const PageBody: string :=
    "</style>\n</head>\n<body>\n<div id=\"root\"></div>\n<script>window.__GRAPH_DATA__ = "
  const DataClose: string := ";" + ScriptClose + ">\n<script type=\"module\">"
  const PageFoot: string := "</script>\n</body>\n</html>"

  /** The page template with its three holes filled. */
  function Page(css: string, json: string, js: string): string
  {
    PageHead + css + PageBody + json + DataClose + js + PageFoot
  }

  /** `generate_html` once the graph is serialized. */
  method GenerateHtml(graphJson: string, assets: seq<Asset>) returns (r: Result<string>)
    ensures LastWith(assets, JsSuffix).None? ==> r == Err(NoJs)
    ensures LastWith(assets, JsSuffix).Some? && LastWith(assets, CssSuffix).None? ==> r == Err(NoCss)
    ensures LastWith(assets, JsSuffix).Some? && LastWith(assets, CssSuffix).Some? ==>
              r == Ok(Page(assets[LastWith(assets, CssSuffix).value].data,
                           EscapeScriptClose(graphJson),
                           assets[LastWith(assets, JsSuffix).value].data))
  {
    var jsSource: Option<string> := None;
    var cssSource: Option<string> := None;
    for i := 0 to |assets|
      invariant jsSource == DataOf(assets, LastWith(assets[..i], JsSuffix))
      invariant cssSource == DataOf(assets, LastWith(assets[..i], CssSuffix))
    {
      var name := assets[i].name;
      assert assets[..i + 1][..i] == assets[..i];
      if EndsWith(name, JsSuffix) {
        ScriptIsNotStylesheet(name);
        jsSource := Some(assets[i].data);
      } else if EndsWith(name, CssSuffix) {
        cssSource := Some(assets[i].data);
      }
    }
    assert assets[..|assets|] == assets;
    if jsSource.None? {
      return Err(NoJs);
    }
    if cssSource.None? {
      return Err(NoCss);
    }
    var json := EscapeScriptClose(graphJson);
    return Ok(Page(cssSource.value, json, jsSource.value));
  }

  /** The escaped text starts with a '<'-free word only where the input
      starts with that word: the escape writes no character of its own
      before a '<'. */
  lemma {:induction false} EscapedPrefix(t: string, w: string)
    requires '<' !in w
    ensures |w| <= |EscapeScriptClose(t)| && EscapeScriptClose(t)[..|w|] == w ==>
            |w| <= |t| && t[..|w|] == w
    decreases |t|
  {
    var out := EscapeScriptClose(t);
    if w != [] && t != [] {
      if OccursAt(t, ScriptClose, 0) {
        assert out[0] == '<';
      } else {
        var rest := EscapeScriptClose(t[1..]);
        assert out == [t[0]] + rest;
        EscapedPrefix(t[1..], w[1..]);
        if |w| <= |out| && |w| <= |t| {
          assert out[..|w|] == [t[0]] + rest[..|w| - 1];
          assert t[..|w|] == [t[0]] + t[1..][..|w| - 1];
        }
      }
    }
  }

  /** Escaping leaves no `</script` in the serialized graph. */
  lemma {:induction false} EscapedHasNoScriptClose(s: string)
    ensures Absent(EscapeScriptClose(s), ScriptClose)
    decreases |s|
  {
    var out := EscapeScriptClose(s);
    if s == [] {
    } else if OccursAt(s, ScriptClose, 0) {
      var rest := EscapeScriptClose(s[|ScriptClose|..]);
      EscapedHasNoScriptClose(s[|ScriptClose|..]);
      assert out == EscapedClose + rest;
      forall j ensures !OccursAt(out, ScriptClose, j) {
        if j == 0 {
          if |ScriptClose| <= |out| {
            assert out[0..|ScriptClose|][1] == EscapedClose[1] != ScriptClose[1];
          }
        } else if 0 < j < |EscapedClose| {
          if j + |ScriptClose| <= |out| {
            assert EscapedClose[j] != '<';
            assert out[j..j + |ScriptClose|][0] == EscapedClose[j];
          }
        } else if j >= |EscapedClose| {
          OccursInTail(EscapedClose, rest, ScriptClose, j - |EscapedClose|);
        }
      }
    } else {
      var rest := EscapeScriptClose(s[1..]);
      EscapedHasNoScriptClose(s[1..]);
      assert out == [s[0]] + rest;
      forall j ensures !OccursAt(out, ScriptClose, j) {
        if j == 0 {
          var w := ScriptClose[1..];
          EscapedPrefix(s[1..], w);
          if |ScriptClose| <= |out| {
            assert out[0..|ScriptClose|] == [s[0]] + rest[..|w|];
          }
          if |ScriptClose| <= |s| {
            assert s[0..|ScriptClose|] == [s[0]] + s[1..][..|w|];
          }
          assert ScriptClose == [ScriptClose[0]] + w;
        } else if j > 0 {
          OccursInTail([s[0]], rest, ScriptClose, j - 1);
        }
      }
    }
  }

  /** A serialization without `</script` is embedded unchanged. */
  lemma EscapeKeepsCleanJson(s: string)
    requires Absent(s, ScriptClose)
    ensures EscapeScriptClose(s) == s
  {
    ReplaceAbsent(s, ScriptClose, EscapedClose);
  }

  /** Reading `\/` back as `/` restores the serialization, provided it held
      no `<\/script` of its own (serde's JSON writer never emits `\/`). */
  lemma {:induction false} UnescapeEscape(s: string)
    requires Absent(s, EscapedClose)
    ensures Replace(EscapeScriptClose(s), EscapedClose, ScriptClose) == s
    decreases |s|
  {
    var out := EscapeScriptClose(s);
    if s == [] {
    } else if OccursAt(s, ScriptClose, 0) {
      var tail := s[|ScriptClose|..];
      forall j: nat ensures !OccursAt(tail, EscapedClose, j) {
        OccursInSuffix(s, EscapedClose, |ScriptClose|, j);
      }
      UnescapeEscape(tail);
      assert out == EscapedClose + EscapeScriptClose(tail);
      assert OccursAt(out, EscapedClose, 0);
      assert out[|EscapedClose|..] == EscapeScriptClose(tail);
      assert s == ScriptClose + tail;
    } else {
      var tail := s[1..];
      forall j: nat ensures !OccursAt(tail, EscapedClose, j) {
        OccursInSuffix(s, EscapedClose, 1, j);
      }
      UnescapeEscape(tail);
      var rest := EscapeScriptClose(tail);
      assert out == [s[0]] + rest;
      var w := EscapedClose[1..];
      EscapedPrefix(tail, w);
      assert s == [s[0]] + tail;
      if |EscapedClose| <= |out| {
        assert out[0..|EscapedClose|] == [s[0]] + rest[..|w|];
      }
      if |EscapedClose| <= |s| {
        assert s[0..|EscapedClose|] == [s[0]] + tail[..|w|];
      }
      assert EscapedClose == [EscapedClose[0]] + w;
      assert !OccursAt(s, EscapedClose, 0);
      assert !OccursAt(out, EscapedClose, 0);
      assert out[1..] == rest;
      assert s == [s[0]] + tail;
    }
  }

  /** Text free of `</script` followed by `;</script`: the first
      `</script` is the one just after the `;`. */
  lemma FirstCloseAfterSemicolon(e: string, rest: string)
    requires Absent(e, ScriptClose)
    requires |rest| >= 1 + |ScriptClose| && rest[..1 + |ScriptClose|] == ";" + ScriptClose
    ensures FirstAt(e + rest, ScriptClose, |e| + 1)
  {
    var after := e + rest;
    assert after[|e| + 1..|e| + 1 + |ScriptClose|] == rest[1..1 + |ScriptClose|];
    assert (";" + ScriptClose)[1..] == ScriptClose;
    forall j | 0 <= j < |e| + 1 ensures !OccursAt(after, ScriptClose, j) {
      if j + |ScriptClose| <= |e| {
        assert after[j..j + |ScriptClose|] == e[j..j + |ScriptClose|];
        assert !OccursAt(e, ScriptClose, j);
      } else if j + |ScriptClose| <= |after| {
        assert after[j..j + |ScriptClose|][|e| - j] == after[|e|] == rest[0] == ';';
        assert ';' !in ScriptClose;
      }
    }
  }

  /** In the generated page, the first `</script` after the data script's
      opening is the one the template puts right after the JSON and its `;`:
      the graph data holds no lowercase `</script`.  The escape is case
      sensitive, so an upper-case `</SCRIPT` passes through unchanged
      (`EscapeKeepsUpperCaseClose`). */
  lemma DataScriptClosesAfterJson(css: string, json: string, js: string)
    ensures var e := EscapeScriptClose(json);
            var start := |PageHead| + |css| + |PageBody|;
            var p := Page(css, e, js);
            start <= |p| && FirstAt(p[start..], ScriptClose, |e| + 1)
  {
    var e := EscapeScriptClose(json);
    var rest := DataClose + js + PageFoot;
    assert Page(css, e, js) == (PageHead + css + PageBody) + (e + rest);
    assert rest[..1 + |ScriptClose|] == DataClose[..1 + |ScriptClose|] == ";" + ScriptClose;
    EscapedHasNoScriptClose(json);
    FirstCloseAfterSemicolon(e, rest);
  }

  /** The escape matches lowercase only: `</SCRIPT>`, which an HTML parser
      also takes as the end of the script, comes through unchanged. */
  lemma EscapeKeepsUpperCaseClose()
    ensures EscapeScriptClose("</SCRIPT>") == "</SCRIPT>"
  {
    var s := "</SCRIPT>";
    forall j ensures !OccursAt(s, ScriptClose, j) {
      if 0 <= j && j + |ScriptClose| <= |s| {
        assert s[j..j + |ScriptClose|][2] != ScriptClose[2];
      }
    }
    EscapeKeepsCleanJson(s);
  }
}
