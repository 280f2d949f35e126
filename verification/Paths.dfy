/**
  Slash-separated paths as text: splitting, joining, and the lexical normalisation that the SFTP
  layer applies before it asks the tree for a node.
 */
module Paths {
  import opened Division
  import opened Text

  predicate Clean(s: string) {
    forall c :: c in s ==> c != '\\' && !IsControl(c)
  }

  lemma CleanConcat(a: string, b: string)
    ensures Clean(a + b) <==> Clean(a) && Clean(b)
  {
    assert forall c :: c in a + b <==> c in a || c in b;
  }

  /** Rust's `str::split('/')`. */
  function Split(s: string): (parts: seq<string>)
    ensures |parts| > 0
    ensures forall p :: p in parts ==> '/' !in p
  {
    if s == "" then [""]
    else
      var rest := Split(s[1..]);
      if s[0] == '/' then [""] + rest else [[s[0]] + rest[0]] + rest[1..]
  }

  function Join(parts: seq<string>): string {
    if parts == [] then "" else if |parts| == 1 then parts[0] else parts[0] + "/" + Join(parts[1..])
  }

  /** The absolute path with the given components. */
  function Absolute(parts: seq<string>): string {
    "/" + Join(parts)
  }

  predicate Plain(name: string) {
    name != "" && name != "." && name != ".." && '/' !in name
  }

  predicate AllPlain(parts: seq<string>) {
    forall p :: p in parts ==> Plain(p)
  }

  lemma {:induction false} SplitConcat(a: string, b: string)
    ensures Split(a + "/" + b) == Split(a) + Split(b)
  {
    if a == "" {
      assert ("" + "/" + b)[1..] == b;
    } else {
      SplitConcat(a[1..], b);
      assert (a + "/" + b)[1..] == a[1..] + "/" + b;
      hide Split;
      SplitStep(a);
      SplitStep(a + "/" + b);
      HeadsConcat(a[0], Split(a[1..]), Split(b));
    }
  }

  /** One more character in front of a split text. */
  function Fronted(c: char, parts: seq<string>): seq<string>
    requires |parts| > 0
  {
    if c == '/' then [""] + parts else [[c] + parts[0]] + parts[1..]
  }

  lemma SplitStep(s: string)
    requires s != ""
    ensures Split(s) == Fronted(s[0], Split(s[1..]))
  {
  }

  lemma HeadsConcat(c: char, a: seq<string>, b: seq<string>)
    requires |a| > 0
    ensures Fronted(c, a + b) == Fronted(c, a) + b
  {
  }

  lemma {:induction false} SplitWhole(s: string)
    requires '/' !in s
    ensures Split(s) == [s]
  {
    if s != "" {
      SplitWhole(s[1..]);
      assert [s[0]] + s[1..] == s;
    }
  }

  lemma {:induction false} SplitJoin(parts: seq<string>)
    requires parts != [] && forall p :: p in parts ==> '/' !in p
    ensures Split(Join(parts)) == parts
  {
    SplitWhole(parts[0]);
    if |parts| > 1 {
      SplitJoin(parts[1..]);
      SplitConcat(parts[0], Join(parts[1..]));
    }
  }

  lemma SplitAbsolute(parts: seq<string>)
    requires forall p :: p in parts ==> '/' !in p
    ensures Split(Absolute(parts)) == [""] + if parts == [] then [""] else parts
  {
    assert Absolute(parts) == "" + "/" + Join(parts);
    SplitConcat("", Join(parts));
    if parts != [] {
      SplitJoin(parts);
    }
  }

  // ---- Lexical normalisation ------------------------------------------------------------------

  /** What a component does to the components collected so far. */
  function Collapse(parts: seq<string>, comps: seq<string>): seq<string>
    decreases |comps|
  {
    if comps == [] then parts
    else if comps[0] == "" || comps[0] == "." then Collapse(parts, comps[1..])
    else if comps[0] == ".." then Collapse(if parts == [] then [] else parts[..|parts| - 1], comps[1..])
    else Collapse(parts + [comps[0]], comps[1..])
  }

  function Sanitised(s: string): (r: string)
    ensures Clean(r)
  {
    if s == "" then ""
    else
      var c := if s[0] == '\\' then '/' else s[0];
      (if IsControl(c) then [] else [c]) + Sanitised(s[1..])
  }

  /** The text whose components are collapsed. */
  function Anchored(cwd: string, path: string): string {
    var s := Sanitised(path);
    if s != "" && s[0] == '/' then s else if cwd == "/" then "/" + s else cwd + "/" + s
  }

  function Normalized(cwd: string, path: string): string {
    Absolute(Collapse([], Split(Anchored(cwd, path))))
  }

  /** `normalize_path`: the loop over components, pushing and popping a vector. */
  method NormalizePath(cwd: string, path: string) returns (r: string)
    ensures r == Normalized(cwd, path)
  {
    var sanitized := Sanitise(path);
    var raw;
    if sanitized != "" && sanitized[0] == '/' {
      raw := sanitized;
    } else if cwd == "/" {
      raw := "/" + sanitized;
    } else {
      raw := cwd + "/" + sanitized;
    }
    var comps := Split(raw);
    var parts: seq<string> := [];
    for k := 0 to |comps|
      invariant Collapse(parts, comps[k..]) == Collapse([], comps)
    {
      var comp := comps[k];
      assert comps[k..][0] == comp && comps[k..][1..] == comps[k + 1..];
      if comp == "" || comp == "." {
      } else if comp == ".." {
        if parts != [] {
          parts := parts[..|parts| - 1];
        }
      } else {
        parts := parts + [comp];
      }
    }
    if parts == [] {
      r := "/";
    } else {
      r := "/" + Join(parts);
    }
  }

  /** The replace-and-filter pass over the requested path. */
  method Sanitise(path: string) returns (r: string)
    ensures r == Sanitised(path)
  {
    r := "";
    for k := 0 to |path|
      invariant r + Sanitised(path[k..]) == Sanitised(path)
    {
      hide Sanitised, IsControl;
      assert path[k..][0] == path[k] && path[k..][1..] == path[k + 1..];
      var c := if path[k] == '\\' then '/' else path[k];
      SanitisedStep(path[k..]);
      if !IsControl(c) {
        ConcatAssoc(r, [c], Sanitised(path[k + 1..]));
        r := r + [c];
      }
    }
  }

  lemma SanitisedStep(s: string)
    requires s != ""
    ensures var c := if s[0] == '\\' then '/' else s[0];
      Sanitised(s) == if IsControl(c) then Sanitised(s[1..]) else [c] + Sanitised(s[1..])
  {
  }

  lemma {:induction false} CollapseIsPlain(parts: seq<string>, comps: seq<string>)
    requires AllPlain(parts) && forall c :: c in comps ==> '/' !in c
    ensures AllPlain(Collapse(parts, comps))
    decreases |comps|
  {
    if comps == [] {
    } else if comps[0] == "" || comps[0] == "." {
      CollapseIsPlain(parts, comps[1..]);
    } else if comps[0] == ".." {
      CollapseIsPlain(if parts == [] then [] else parts[..|parts| - 1], comps[1..]);
    } else {
      CollapseIsPlain(parts + [comps[0]], comps[1..]);
    }
  }

  lemma {:induction false} CollapseOfPlain(parts: seq<string>, comps: seq<string>, more: seq<string>)
    requires AllPlain(comps)
    ensures Collapse(parts, comps + more) == Collapse(parts + comps, more)
    decreases |comps|
  {
    if comps == [] {
      assert comps + more == more && parts + comps == parts;
    } else {
      assert (comps + more)[1..] == comps[1..] + more;
      assert parts + comps == (parts + [comps[0]]) + comps[1..];
      assert Plain(comps[0]);
      CollapseOfPlain(parts + [comps[0]], comps[1..], more);
    }
  }

  /** The result is an absolute path all of whose components are plain. */
  lemma NormalizedIsCanonical(cwd: string, path: string)
    ensures exists parts :: AllPlain(parts) && Normalized(cwd, path) == Absolute(parts)
  {
    var comps := Split(Anchored(cwd, path));
    CollapseIsPlain([], comps);
  }

  lemma {:induction false} SanitisedFixes(s: string)
    ensures Sanitised(s) == s <==> Clean(s)
    ensures |Sanitised(s)| <= |s|
  {
    if s != "" {
      SanitisedFixes(s[1..]);
      assert s == [s[0]] + s[1..];
      CleanConcat([s[0]], s[1..]);
      if Sanitised(s) == s {
        assert Sanitised(s)[0] == s[0] && Sanitised(s)[1..] == Sanitised(s[1..]);
        assert Clean([s[0]]);
      }
      if Clean(s) {
        assert s[0] in s;
        assert Sanitised(s) == [s[0]] + Sanitised(s[1..]);
      }
    }
  }

  lemma {:induction false} SanitisedConcat(a: string, b: string)
    ensures Sanitised(a + b) == Sanitised(a) + Sanitised(b)
  {
    if a == "" {
      assert a + b == b;
    } else {
      hide Sanitised, IsControl;
      var s, c := a + b, if a[0] == '\\' then '/' else a[0];
      assert s[0] == a[0] && s[1..] == a[1..] + b;
      SanitisedConcat(a[1..], b);
      SanitisedStep(a);
      SanitisedStep(s);
      ConcatAssoc([c], Sanitised(a[1..]), Sanitised(b));
    }
  }

  /** A backslash is as good as a slash, and a control character as good as nothing. */
  lemma BackslashSeparates(cwd: string, a: string, c: char, b: string)
    ensures Normalized(cwd, a + ("\\" + b)) == Normalized(cwd, a + ("/" + b))
    ensures IsControl(c) ==> Normalized(cwd, a + ([c] + b)) == Normalized(cwd, a + b)
  {
    var back, slash, none := "\\" + b, "/" + b, [c] + b;
    assert back[1..] == b && slash[1..] == b && none[1..] == b;
    SanitisedStep(back);
    SanitisedStep(slash);
    SanitisedStep(none);
    hide Sanitised;
    SanitisedConcat(a, back);
    SanitisedConcat(a, slash);
    SanitisedConcat(a, none);
    SanitisedConcat(a, b);
  }

  /** A clean relative request hangs its components under the working directory's. */
  lemma AnchoredSplits(cwd: string, path: string)
    requires Clean(path) && !(path != "" && path[0] == '/')
    ensures Split(Anchored(cwd, path)) == (if cwd == "/" then [""] else Split(cwd)) + Split(path)
  {
    SanitisedFixes(path);
    if cwd == "/" {
      SplitConcat("", path);
      assert "" + "/" + path == "/" + path;
      SplitWhole("");
    } else {
      SplitConcat(cwd, path);
    }
  }

  lemma CollapseOfAbsolute(parts: seq<string>)
    requires AllPlain(parts)
    ensures Collapse([], Split(Absolute(parts))) == parts
  {
    SplitAbsolute(parts);
    if parts != [] {
      assert ([""] + parts)[1..] == parts + [];
      CollapseOfPlain([], parts, []);
    } else {
      assert [""] + [""] == ["", ""];
      assert Collapse([], ["", ""]) == Collapse([], [""]) == [];
    }
  }

  /** How far the components reach up out of the directory they start in, `own` being how many they have gone
      down before. */
  function Climbs(comps: seq<string>, own: nat): nat
    decreases |comps|
  {
    if comps == [] then 0
    else if comps[0] == "" || comps[0] == "." then Climbs(comps[1..], own)
    else if comps[0] == ".." then (if own > 0 then Climbs(comps[1..], own - 1) else 1 + Climbs(comps[1..], 0))
    else Climbs(comps[1..], own + 1)
  }

  /** The first components of a path that `n` steps up leave. */
  function Above(parts: seq<string>, n: nat): seq<string> {
    if n <= |parts| then parts[..|parts| - n] else []
  }

  /** The components of the working directory that are still in the normal form. */
  function Survivors(cwd: string, path: string): seq<string> {
    var s := Sanitised(path);
    if s != "" && s[0] == '/' then [] else Above(Collapse([], Split(cwd)), Climbs(Split(s), 0))
  }

  /** Collapsing below a directory: what is climbed comes off the directory, the rest is as below nothing. */
  lemma {:induction false} CollapseBelow(base: seq<string>, own: seq<string>, comps: seq<string>)
    ensures Collapse(base + own, comps) == Above(base, Climbs(comps, |own|)) + Collapse(own, comps)
    decreases |comps|
  {
    if comps == [] {
    } else if comps[0] == "" || comps[0] == "." {
      CollapseBelow(base, own, comps[1..]);
    } else if comps[0] == ".." {
      if own != [] {
        CollapseBelow(base, own[..|own| - 1], comps[1..]);
        assert (base + own)[..|base + own| - 1] == base + own[..|own| - 1];
      } else {
        assert base + own == base;
        if base == [] {
          CollapseBelow([], [], comps[1..]);
          assert [] + Collapse([], comps[1..]) == Collapse([], comps[1..]);
        } else {
          var up := base[..|base| - 1];
          CollapseBelow(up, [], comps[1..]);
          assert up + [] == up;
        }
      }
    } else {
      CollapseBelow(base, own + [comps[0]], comps[1..]);
      assert (base + own) + [comps[0]] == base + (own + [comps[0]]);
    }
  }

  lemma {:induction false} CollapseConcat(parts: seq<string>, a: seq<string>, b: seq<string>)
    ensures Collapse(parts, a + b) == Collapse(Collapse(parts, a), b)
    decreases |a|
  {
    if a == [] {
      assert a + b == b;
    } else {
      assert (a + b)[1..] == a[1..] + b;
      if a[0] == "" || a[0] == "." {
        CollapseConcat(parts, a[1..], b);
      } else if a[0] == ".." {
        CollapseConcat(if parts == [] then [] else parts[..|parts| - 1], a[1..], b);
      } else {
        CollapseConcat(parts + [a[0]], a[1..], b);
      }
    }
  }

  /** The normal form is what survives of the working directory, and then only text from the sanitised
      request. */
  lemma NormalFormParts(cwd: string, path: string) returns (own: seq<string>)
    ensures Normalized(cwd, path) == Absolute(Survivors(cwd, path) + own)
    ensures forall p :: p in own ==> Clean(p)
  {
    var s := Sanitised(path);
    own := Collapse([], Split(s));
    SplitClean(s);
    CollapseOnlyClean([], Split(s));
    if s != "" && s[0] == '/' {
      assert [] + own == own;
    } else {
      var base := Collapse([], Split(cwd));
      var dir := if cwd == "/" then "" else cwd;
      assert Anchored(cwd, path) == dir + "/" + s;
      SplitConcat(dir, s);
      CollapseConcat([], Split(dir), Split(s));
      RootCollapses();
      CollapseBelow(base, [], Split(s));
      assert base + [] == base;
    }
  }

  lemma RootCollapses()
    ensures Collapse([], Split("/")) == [] == Collapse([], Split(""))
  {
    assert Split("/") == [""] + Split("");
    assert Split("")[1..] == [] && Split("/")[1..] == Split("");
  }

  /** Normalising a normalised path changes nothing, from whatever directory, exactly when what survives of the
      working directory has no backslash or control character in it: those are stripped from the requested
      path but not from the working directory's own name. */
  lemma NormalizeTwice(cwd: string, path: string, cwd2: string)
    ensures Normalized(cwd2, Normalized(cwd, path)) == Normalized(cwd, path) <==>
      forall p :: p in Survivors(cwd, path) ==> Clean(p)
  {
    var own := NormalFormParts(cwd, path);
    var parts := Survivors(cwd, path) + own;
    AbsoluteClean(parts);
    assert forall p :: p in parts <==> p in Survivors(cwd, path) || p in own;
    NormalizeTwiceIfClean(cwd, path, cwd2);
  }

  lemma NormalizeTwiceIfClean(cwd: string, path: string, cwd2: string)
    ensures Normalized(cwd2, Normalized(cwd, path)) == Normalized(cwd, path) <==> Clean(Normalized(cwd, path))
  {
    var r := Normalized(cwd, path);
    var parts := Collapse([], Split(Anchored(cwd, path)));
    CollapseIsPlain([], Split(Anchored(cwd, path)));
    SanitisedFixes(r);
    if Clean(r) {
      CollapseOfAbsolute(parts);
    } else {
      assert r[0] == '/';
      var s := Sanitised(r);
      assert s[0] == '/';
      CollapseOnlyClean([], Split(s));
      SplitClean(s);
      JoinClean(Collapse([], Split(s)));
    }
  }

  /** A working directory just below the root, and an empty request. */
  lemma OneDirectory(c: string)
    requires Plain(c)
    ensures Survivors("/" + c, "") == [c] && Normalized("/" + c, "") == "/" + c
  {
    var cwd := "/" + c;
    hide Split, Plain, Absolute;
    PlainCollapses(c);
    SplitWhole(c);
    SplitWhole("");
    SplitConcat("", c);
    assert "" + "/" + c == cwd;
    SplitConcat(cwd, "");
    CollapseConcat([], [""] + [c], [""]);
    AbsoluteOne(c);
  }

  lemma PlainCollapses(c: string)
    requires Plain(c)
    ensures '/' !in c && c != "" && Collapse([], [""] + [c]) == [c]
    ensures Collapse([c], [""]) == [c] && Climbs([""], 0) == 0
  {
    assert ([""] + [c])[1..] == [c] && [c][1..] == [] && [""][1..] == [];
    assert Collapse([], [c]) == Collapse([] + [c], []) == [c];
  }

  lemma AbsoluteOne(c: string)
    ensures Absolute([c]) == "/" + c
  {
  }

  /** A tab in the working directory's name is gone the second time. */
  lemma TabIsStripped()
    ensures Normalized("/a\tb", "") == "/a\tb" && Normalized("/", Normalized("/a\tb", "")) != Normalized("/a\tb", "")
  {
    hide Normalized, Survivors;
    var c := "a\tb";
    assert "/a\tb" == "/" + c;
    OneDirectory(c);
    assert c[1] == '\t' && '\t' in c;
    assert c in Survivors("/" + c, "") && !Clean(c);
    NormalizeTwice("/" + c, "", "/");
  }

  lemma AbsoluteClean(parts: seq<string>)
    ensures Clean(Absolute(parts)) <==> forall p :: p in parts ==> Clean(p)
  {
    CleanConcat("/", Join(parts));
    assert '/' in "/" ==> Clean("/");
    JoinCleanIff(parts);
  }

  lemma {:induction false} JoinCleanIff(parts: seq<string>)
    ensures Clean(Join(parts)) <==> forall p :: p in parts ==> Clean(p)
  {
    if |parts| > 1 {
      JoinCleanIff(parts[1..]);
      CleanConcat(parts[0], "/");
      CleanConcat(parts[0] + "/", Join(parts[1..]));
      assert parts == [parts[0]] + parts[1..];
    } else if |parts| == 1 {
      assert parts[0] in parts;
    }
  }

  lemma {:induction false} SplitClean(s: string)
    requires Clean(s)
    ensures forall p :: p in Split(s) ==> Clean(p)
  {
    if s != "" {
      CleanConcat([s[0]], s[1..]);
      assert s == [s[0]] + s[1..];
      SplitClean(s[1..]);
      CleanConcat([s[0]], Split(s[1..])[0]);
    }
  }

  lemma {:induction false} JoinClean(parts: seq<string>)
    requires forall p :: p in parts ==> Clean(p)
    ensures Clean(Join(parts))
  {
    if |parts| > 1 {
      JoinClean(parts[1..]);
      CleanConcat(parts[0], "/");
      CleanConcat(parts[0] + "/", Join(parts[1..]));
    }
  }

  lemma {:induction false} CollapseOnlyClean(parts: seq<string>, comps: seq<string>)
    ensures forall p :: p in Collapse(parts, comps) ==> p in parts || p in comps
    decreases |comps|
  {
    if comps == [] {
    } else if comps[0] == "" || comps[0] == "." {
      CollapseOnlyClean(parts, comps[1..]);
    } else if comps[0] == ".." {
      CollapseOnlyClean(if parts == [] then [] else parts[..|parts| - 1], comps[1..]);
    } else {
      CollapseOnlyClean(parts + [comps[0]], comps[1..]);
    }
  }

  /** What a caller can check: a clean working directory, or a request that names its own root. */
  lemma CleanInputsNormalizeClean(cwd: string, path: string)
    requires Clean(cwd) || (Sanitised(path) != "" && Sanitised(path)[0] == '/')
    ensures Clean(Normalized(cwd, path))
  {
    var raw := Anchored(cwd, path);
    assert Clean(raw);
    SplitClean(raw);
    CollapseOnlyClean([], Split(raw));
    JoinClean(Collapse([], Split(raw)));
  }
}
