/**
 * The browser side (`webapp/frontend/script.js`): the name returned by the
 * backend is cleaned again before it is put into the result image URLs.
 * `sanitizeFilename` is two regular-expression replacements: every run of
 * whitespace becomes one `_`, then every character outside
 * `[a-zA-Z0-9._-]` is deleted.
 *
 * JavaScript strings are UTF-16 code units while a Dafny `char` is a whole
 * Unicode scalar value. The two agree here: `\s` contains no character
 * outside the Basic Multilingual Plane, and such a character is deleted
 * whole in both readings (both of its surrogate halves are disallowed).
 */
module Frontend {
  import Backend
  import opened Strings
  import opened Results

  /** JavaScript's `\s`: the ECMAScript WhiteSpace and LineTerminator characters. */
  predicate IsSpace(c: char): (b: bool)
    ensures b ==> !IsAllowed(c)
  {
    || ('\t' <= c <= '\r') || c == ' ' || c == '\U{A0}' || c == '\U{1680}'
    || ('\U{2000}' <= c <= '\U{200A}') || c == '\U{2028}' || c == '\U{2029}' || c == '\U{202F}'
    || c == '\U{205F}' || c == '\U{3000}' || c == '\U{FEFF}'
  }

  /** The class `[a-zA-Z0-9._-]`. */
  predicate IsAllowed(c: char): (b: bool)
    ensures b ==> c as int < 128 && c != '/' && c != ' '
  {
    ('a' <= c <= 'z') || ('A' <= c <= 'Z') || ('0' <= c <= '9') || c == '.' || c == '_' || c == '-'
  }

  predicate AllAllowed(s: string)
  {
    forall i :: 0 <= i < |s| ==> IsAllowed(s[i])
  }

  predicate NoSpaces(s: string)
  {
    forall i :: 0 <= i < |s| ==> !IsSpace(s[i])
  }

  // ---------------------------------------------------------------------
  // replace(/\s+/g, "_")
  // ---------------------------------------------------------------------

  /** The rest of `s` after its leading whitespace: where a `\s+` match ends. */
  function SkipSpaces(s: string): (r: string)
    ensures |r| <= |s|
    ensures |r| == 0 || !IsSpace(r[0])
  {
    if |s| > 0 && IsSpace(s[0]) then SkipSpaces(s[1..]) else s
  }

  /** Each maximal run of whitespace, scanning left to right, becomes one `_`. */
  function CollapseSpaces(s: string): (r: string)
    ensures |r| <= |s|
    decreases |s|
  {
    if |s| == 0 then ""
    else if IsSpace(s[0]) then "_" + CollapseSpaces(SkipSpaces(s[1..]))
    else [s[0]] + CollapseSpaces(s[1..])
  }

  /** No whitespace is left after collapsing. */
  lemma {:induction false} CollapseLeavesNoSpaces(s: string)
    ensures NoSpaces(CollapseSpaces(s))
    decreases |s|
  {
    if |s| > 0 {
      var r := CollapseSpaces(s);
      var t := if IsSpace(s[0]) then SkipSpaces(s[1..]) else s[1..];
      CollapseLeavesNoSpaces(t);
      assert r[1..] == CollapseSpaces(t);
      assert !IsSpace(r[0]);
      forall i | 1 <= i < |r| ensures !IsSpace(r[i]) {
        assert r[i] == CollapseSpaces(t)[i - 1];
      }
    }
  }

  /** Whitespace followed by a string that does not start with whitespace is skipped up to it. */
  lemma {:induction false} SkipSpacesOfRun(w: string, v: string)
    requires forall i :: 0 <= i < |w| ==> IsSpace(w[i])
    requires |v| == 0 || !IsSpace(v[0])
    ensures SkipSpaces(w + v) == v
  {
    if |w| == 0 {
      assert w + v == v;
    } else {
      assert (w + v)[0] == w[0] && (w + v)[1..] == w[1..] + v;
      SkipSpacesOfRun(w[1..], v);
    }
  }

  /** When `a` ends in a non-space, skipping leading whitespace stays inside `a`. */
  lemma {:induction false} SkipSpacesInside(a: string, rest: string)
    requires |a| > 0 && !IsSpace(a[|a| - 1])
    ensures SkipSpaces(a + rest) == SkipSpaces(a) + rest
    ensures |SkipSpaces(a)| > 0 && SkipSpaces(a)[|SkipSpaces(a)| - 1] == a[|a| - 1]
  {
    assert (a + rest)[0] == a[0];
    if IsSpace(a[0]) {
      assert |a| > 1;
      assert (a + rest)[1..] == a[1..] + rest;
      SkipSpacesInside(a[1..], rest);
    }
  }

  /** Collapsing splits after a part that does not end in whitespace. */
  lemma {:induction false} CollapseAppend(u: string, t: string)
    requires |u| == 0 || !IsSpace(u[|u| - 1])
    ensures CollapseSpaces(u + t) == CollapseSpaces(u) + CollapseSpaces(t)
    decreases |u|
  {
    if |u| == 0 {
      assert u + t == t;
    } else if !IsSpace(u[0]) {
      CollapseAppend(u[1..], t);
      CollapseAppendAfterChar(u, t);
    } else {
      SkipSpacesInside(u[1..], t);
      CollapseAppend(SkipSpaces(u[1..]), t);
      CollapseAppendAfterSpaces(u, t);
    }
  }

  lemma CollapseAppendAfterChar(u: string, t: string)
    requires |u| > 0 && !IsSpace(u[0])
    requires CollapseSpaces(u[1..] + t) == CollapseSpaces(u[1..]) + CollapseSpaces(t)
    ensures CollapseSpaces(u + t) == CollapseSpaces(u) + CollapseSpaces(t)
  {
    var s := u + t;
    assert s[0] == u[0] && s[1..] == u[1..] + t;
    assert CollapseSpaces(s) == [u[0]] + CollapseSpaces(u[1..] + t);
    assert CollapseSpaces(u) == [u[0]] + CollapseSpaces(u[1..]);
    Regroup3([u[0]], CollapseSpaces(u[1..]), CollapseSpaces(t));
  }

  lemma CollapseAppendAfterSpaces(u: string, t: string)
    requires |u| > 1 && IsSpace(u[0])
    requires SkipSpaces(u[1..] + t) == SkipSpaces(u[1..]) + t
    requires CollapseSpaces(SkipSpaces(u[1..]) + t) == CollapseSpaces(SkipSpaces(u[1..])) + CollapseSpaces(t)
    ensures CollapseSpaces(u + t) == CollapseSpaces(u) + CollapseSpaces(t)
  {
    var s := u + t;
    assert s[0] == u[0] && s[1..] == u[1..] + t;
    Regroup3("_", CollapseSpaces(SkipSpaces(u[1..])), CollapseSpaces(t));
  }

  /** A maximal run of whitespace standing first becomes exactly one `_`. */
  lemma CollapseRunAlone(w: string, v: string)
    requires |w| > 0 && forall i :: 0 <= i < |w| ==> IsSpace(w[i])
    requires |v| == 0 || !IsSpace(v[0])
    ensures CollapseSpaces(w + v) == "_" + CollapseSpaces(v)
  {
    var s := w + v;
    assert SkipSpaces(s[1..]) == v by {
      assert s[1..] == w[1..] + v;
      SkipSpacesOfRun(w[1..], v);
    }
    assert IsSpace(s[0]) by {
      assert s[0] == w[0];
    }
  }

  /**
   * A maximal run of whitespace, between a part that does not end in
   * whitespace and a part that does not start with it, becomes exactly one `_`.
   */
  lemma CollapseRun(u: string, w: string, v: string)
    requires |u| == 0 || !IsSpace(u[|u| - 1])
    requires |w| > 0 && forall i :: 0 <= i < |w| ==> IsSpace(w[i])
    requires |v| == 0 || !IsSpace(v[0])
    ensures CollapseSpaces(u + w + v) == CollapseSpaces(u) + "_" + CollapseSpaces(v)
  {
    CollapseAppend(u, w + v);
    CollapseRunAlone(w, v);
    Regroup3(u, w, v);
    Regroup3(CollapseSpaces(u), "_", CollapseSpaces(v));
  }

  /** A string without whitespace is left as it is. */
  lemma {:induction false} CollapseNoSpaces(s: string)
    requires NoSpaces(s)
    ensures CollapseSpaces(s) == s
  {
    if |s| > 0 {
      CollapseNoSpaces(s[1..]);
      assert s == [s[0]] + s[1..];
    }
  }

  // ---------------------------------------------------------------------
  // replace(/[^a-zA-Z0-9._-]/g, "")
  // ---------------------------------------------------------------------

  /** `a` is `b` with some characters deleted, order preserved. */
  ghost predicate IsSubsequence(a: string, b: string)
    decreases |b|
  {
    |a| == 0 || (|b| > 0 && ((a[0] == b[0] && IsSubsequence(a[1..], b[1..])) || IsSubsequence(a, b[1..])))
  }

  /** Delete every character outside the allowed class. */
  function DropDisallowed(s: string): (r: string)
    ensures |r| <= |s| && AllAllowed(r)
  {
    if |s| == 0 then ""
    else if IsAllowed(s[0]) then [s[0]] + DropDisallowed(s[1..]) else DropDisallowed(s[1..])
  }

  /** Every allowed character is kept as often as it occurs. */
  lemma {:induction false} DropDisallowedKeepsAllowed(s: string, c: char)
    requires IsAllowed(c)
    ensures multiset(DropDisallowed(s))[c] == multiset(s)[c]
  {
    if |s| > 0 {
      DropDisallowedKeepsAllowed(s[1..], c);
      assert s == [s[0]] + s[1..];
    }
  }

  /** What is kept is a subsequence of the input: with `DropDisallowedKeepsAllowed`, exactly the allowed characters in order. */
  lemma {:induction false} DropDisallowedIsSubsequence(s: string)
    ensures IsSubsequence(DropDisallowed(s), s)
  {
    if |s| > 0 {
      DropDisallowedIsSubsequence(s[1..]);
      var r := DropDisallowed(s);
      if IsAllowed(s[0]) {
        assert r[0] == s[0] && r[1..] == DropDisallowed(s[1..]);
      }
    }
  }

  /** A string of allowed characters is left as it is. */
  lemma {:induction false} DropNothing(s: string)
    requires AllAllowed(s)
    ensures DropDisallowed(s) == s
  {
    if |s| > 0 {
      DropNothing(s[1..]);
      assert s == [s[0]] + s[1..];
    }
  }

  // ---------------------------------------------------------------------
  // sanitizeFilename
  // ---------------------------------------------------------------------

  function SanitizeFilename(name: string): (r: string)
    ensures AllAllowed(r)
    ensures |r| <= |name|
  {
    DropDisallowed(CollapseSpaces(name))
  }

  /** The result is the whitespace-collapsed name with the disallowed characters deleted. */
  lemma SanitizeIsSubsequenceOfCollapsed(name: string)
    ensures IsSubsequence(SanitizeFilename(name), CollapseSpaces(name))
    ensures forall c :: IsAllowed(c) ==> multiset(SanitizeFilename(name))[c] == multiset(CollapseSpaces(name))[c]
  {
    DropDisallowedIsSubsequence(CollapseSpaces(name));
    forall c | IsAllowed(c) ensures multiset(SanitizeFilename(name))[c] == multiset(CollapseSpaces(name))[c] {
      DropDisallowedKeepsAllowed(CollapseSpaces(name), c);
    }
  }

  /** A name changes under sanitising exactly when it holds a character outside the class. */
  lemma SanitizeFixedPoints(name: string)
    ensures SanitizeFilename(name) == name <==> AllAllowed(name)
  {
    if AllAllowed(name) {
      assert NoSpaces(name) by {
        forall i | 0 <= i < |name| ensures !IsSpace(name[i]) {
          assert IsAllowed(name[i]);
        }
      }
      CollapseNoSpaces(name);
      DropNothing(name);
    }
  }

  /**
   * Sanitising twice is sanitising once: the heat-map handler cleans the
   * name already shown, and gets the one the result images used.
   */
  lemma SanitizeIdempotent(name: string)
    ensures SanitizeFilename(SanitizeFilename(name)) == SanitizeFilename(name)
  {
    SanitizeFixedPoints(SanitizeFilename(name));
  }

  /** For names made of allowed characters only, the stored name and the requested name agree. */
  lemma PlainNamesAgree(name: string)
    requires AllAllowed(name)
    ensures SanitizeFilename(Backend.SanitizeFilename(name)) == Backend.SanitizeFilename(name) == name
  {
    assert forall i :: 0 <= i < |name| ==> name[i] != ' ' && name[i] != '/' by {
      forall i | 0 <= i < |name| ensures name[i] != ' ' && name[i] != '/' {
        assert IsAllowed(name[i]);
      }
    }
    Backend.SanitizeKeepsPlainNames(name);
    SanitizeFixedPoints(name);
  }

  /**
   * Otherwise they can differ: a name such as `(1).png`, with no space or
   * slash but a character outside the class, is stored as it is but
   * requested under another name.
   */
  lemma NamesCanDiverge(name: string)
    requires forall i :: 0 <= i < |name| ==> name[i] != ' ' && name[i] != '/'
    requires !AllAllowed(name)
    ensures Backend.SanitizeFilename(name) == name
    ensures SanitizeFilename(Backend.SanitizeFilename(name)) != Backend.SanitizeFilename(name)
  {
    Backend.SanitizeKeepsPlainNames(name);
    SanitizeFixedPoints(name);
  }

  // ---------------------------------------------------------------------
  // Result image URLs
  // ---------------------------------------------------------------------

  /** The backend serves the `results` directory at this URL path (a static mount). */
  const ResultsMount := "/results"

  /** The file a GET of `path` on the backend serves, if any route matches it. */
  function ServedFile(path: string): (r: Option<string>)
    ensures r.Some? <==> StartsWith(path, ResultsMount + "/")
  {
    if StartsWith(path, ResultsMount + "/") then Some(Backend.ResultDir + path[|ResultsMount|..]) else None
  }

  /** The URL path the page uses for result `sub` of `name`, as written: `/result/...`. */
  function AsWrittenResultPath(sub: string, name: string): (p: string)
    ensures StartsWith(p, "/result/") && EndsWith(p, "/" + name)
  {
    "/result/" + sub + "/" + name
  }

  /** No route serves those paths: every result and heat-map image fails to load. */
  lemma AsWrittenResultsNotServed(sub: string, name: string)
    ensures ServedFile(AsWrittenResultPath(sub, name)) == None
  {
    var p := AsWrittenResultPath(sub, name);
    assert p[7] == '/' && (ResultsMount + "/")[7] == 's';
  }

  /** The URL path under the static mount. */
  function ResultUrlPath(sub: string, name: string): (p: string)
    ensures StartsWith(p, ResultsMount + "/") && EndsWith(p, "/" + name)
  {
    ResultsMount + "/" + sub + "/" + name
  }

  /** Every path under the mount is served from the `results` directory. */
  lemma ServedUnderMount(x: string)
    ensures ServedFile(ResultsMount + "/" + x) == Some(Backend.ResultDir + "/" + x)
  {
    var p := ResultsMount + "/" + x;
    assert StartsWith(p, ResultsMount + "/");
    assert p[|ResultsMount|..] == "/" + x;
    Regroup3(Backend.ResultDir, "/", x);
  }

  lemma Regroup3(a: string, b: string, c: string)
    ensures a + (b + c) == a + b + c
  {
  }

  /**
   * For a plain name whose upload succeeds, the corrected path serves
   * exactly the result file that upload wrote (Backend.UploadEffects).
   */
  lemma ResultUrlServesStoredFile(clientName: string, decodes: bool, saveExtensions: set<string>, sub: string)
    requires AllAllowed(clientName)
    requires Backend.UploadSucceeds(Backend.SanitizeFilename(clientName), decodes, saveExtensions)
    requires sub in {Backend.OriginalSub, Backend.SegNetSub, Backend.UNetPlusPlusSub,
                     Backend.SegNetHeatmapSub, Backend.UNetPlusPlusHeatmapSub}
    ensures var stored := Backend.SanitizeFilename(clientName);
            ServedFile(ResultUrlPath(sub, SanitizeFilename(stored))) == Some(Backend.ResultPath(sub, stored))
  {
    PlainNamesAgree(clientName);
    Backend.UploadsStayInTheirDirectories(clientName, sub);
    ServedUnderMount(sub + "/" + clientName);
    Regroup3(ResultsMount + "/", sub + "/", clientName);
    Regroup3(ResultsMount + "/", sub, "/");
    Regroup3(Backend.ResultDir + "/", sub + "/", clientName);
    Regroup3(Backend.ResultDir + "/", sub, "/");
  }

  /**
   * What the page sets as the four image sources after a successful upload
   * that returned `filename`: the heat-map handler re-sanitises the name the
   * page displays, which is then the sanitised `filename`.
   */
  datatype ResultImages = ResultImages(segnet: string, unetpp: string, segnetHeatmap: string, unetppHeatmap: string)

  function ResultImagesFor(filename: string): (r: ResultImages)
    ensures var safe := SanitizeFilename(filename);
            && r.segnet == ResultUrlPath(Backend.SegNetSub, safe)
            && r.unetpp == ResultUrlPath(Backend.UNetPlusPlusSub, safe)
            && r.segnetHeatmap == ResultUrlPath(Backend.SegNetHeatmapSub, safe)
            && r.unetppHeatmap == ResultUrlPath(Backend.UNetPlusPlusHeatmapSub, safe)
  {
    var safe := SanitizeFilename(filename);
    SanitizeIdempotent(filename);
    ResultImages(
      ResultUrlPath(Backend.SegNetSub, safe),
      ResultUrlPath(Backend.UNetPlusPlusSub, safe),
      ResultUrlPath(Backend.SegNetHeatmapSub, SanitizeFilename(safe)),
      ResultUrlPath(Backend.UNetPlusPlusHeatmapSub, SanitizeFilename(safe)))
  }
}
