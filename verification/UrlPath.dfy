/** Path rules of httpxp/_urlparse.py: splitting, dot segments and validation. */
module UrlPath {
  import opened Prelude
  import opened Text
  import opened Quote

  /** `path.split("/")`. */
  function Split(s: string): (r: seq<string>)
    ensures |r| > 0
  {
    if s == "" then [""]
    else if s[0] == '/' then [""] + Split(s[1..])
    else
      var r := Split(s[1..]);
      [[s[0]] + r[0]] + r[1..]
  }

  /** `"/".join(segments)`. */
  function Join(segments: seq<string>): string
  {
    if segments == [] then ""
    else if |segments| == 1 then segments[0]
    else segments[0] + "/" + Join(segments[1..])
  }

  predicate IsSlash(c: char) { c == '/' }

  predicate NoSlash(segment: string) { Avoids(segment, IsSlash) }

  predicate NoDots(segments: seq<string>)
  {
    forall i | 0 <= i < |segments| :: segments[i] != "." && segments[i] != ".."
  }

  lemma {:induction false} JoinSplit(s: string)
    ensures Join(Split(s)) == s
    ensures forall i | 0 <= i < |Split(s)| :: NoSlash(Split(s)[i])
  {
    if s != "" {
      JoinSplit(s[1..]);
      var r := Split(s[1..]);
      assert s == [s[0]] + s[1..];
      if s[0] == '/' {
        assert ([""] + r)[1..] == r;
      } else {
        var q := [[s[0]] + r[0]] + r[1..];
        assert q[1..] == r[1..];
      }
    }
  }

  /** A slash-free text in front extends the first segment. */
  lemma {:induction false} SplitPrefix(a: string, t: string)
    requires NoSlash(a)
    ensures Split(a + t) == [a + Split(t)[0]] + Split(t)[1..]
  {
    if a == "" {
      assert a + t == t && a + Split(t)[0] == Split(t)[0];
    } else {
      assert (a + t)[0] == a[0] && (a + t)[1..] == a[1..] + t;
      SplitPrefix(a[1..], t);
      assert [a[0]] + (a[1..] + Split(t)[0]) == a + Split(t)[0];
    }
  }

  lemma {:induction false} SplitJoin(segments: seq<string>)
    requires segments != []
    requires forall i | 0 <= i < |segments| :: NoSlash(segments[i])
    ensures Split(Join(segments)) == segments
  {
    var head := segments[0];
    if |segments| == 1 {
      SplitPrefix(head, "");
      assert head + "" == head;
    } else {
      SplitJoin(segments[1..]);
      var tail := "/" + Join(segments[1..]);
      assert tail[1..] == Join(segments[1..]);
      SplitPrefix(head, tail);
      assert head + "/" + Join(segments[1..]) == head + tail && head + "" == head;
    }
  }

  /** Splitting at a slash in the middle. */
  lemma {:induction false} SplitAppend(p: string, q: string)
    ensures Split(p + "/" + q) == Split(p) + Split(q)
  {
    if p == "" {
      assert (p + "/" + q)[1..] == q;
    } else {
      SplitAppend(p[1..], q);
      SplitAppendStep(p[0], p[1..], p[1..] + "/" + q, Split(q));
      assert p + "/" + q == [p[0]] + (p[1..] + "/" + q) && p == [p[0]] + p[1..];
    }
  }

  lemma SplitHead(c: char, t: string)
    ensures Split([c] + t) == if c == '/' then [""] + Split(t) else [[c] + Split(t)[0]] + Split(t)[1..]
  {
    assert ([c] + t)[1..] == t;
  }

  lemma SplitAppendStep(c: char, p: string, pq: string, q: seq<string>)
    requires Split(pq) == Split(p) + q
    ensures Split([c] + pq) == Split([c] + p) + q
  {
    hide Split;
    SplitHead(c, p);
    SplitHead(c, pq);
  }

  // ----- normalize_path -----

  /** One round of the segment loop. */
  function Visit(output: seq<string>, component: string): seq<string>
  {
    if component == "." then output
    else if component == ".." then
      if output != [] && output != [""] then output[..|output| - 1] else output
    else output + [component]
  }

  function Reduce(output: seq<string>, components: seq<string>): seq<string>
    decreases |components|
  {
    if components == [] then output
    else Reduce(Visit(output, components[0]), components[1..])
  }

  /** The segment stack left by a path, without either fast return. */
  function Normalized(path: string): string { Join(Reduce([], Split(path))) }

  lemma {:induction false} ReduceSplit(output: seq<string>, a: seq<string>, b: seq<string>)
    ensures Reduce(output, a + b) == Reduce(Reduce(output, a), b)
    decreases |a|
  {
    if a == [] {
      assert a + b == b;
    } else {
      assert (a + b)[1..] == a[1..] + b;
      ReduceSplit(Visit(output, a[0]), a[1..], b);
    }
  }

  /** Components without dot segments are all kept, in order. */
  lemma {:induction false} ReduceDotFree(output: seq<string>, components: seq<string>)
    requires NoDots(components)
    ensures Reduce(output, components) == output + components
    decreases |components|
  {
    if components == [] {
      assert output + components == output;
    } else {
      ReduceDotFree(output + [components[0]], components[1..]);
      assert output + [components[0]] + components[1..] == output + components;
    }
  }

  lemma DotFreeFixed(path: string)
    requires NoDots(Split(path))
    ensures Normalized(path) == path
  {
    ReduceDotFree([], Split(path));
    assert [] + Split(path) == Split(path);
    JoinSplit(path);
  }

  lemma {:induction false} SplitDot(path: string)
    requires '.' !in path
    ensures NoDots(Split(path))
    ensures forall i | 0 <= i < |Split(path)| :: '.' !in Split(path)[i]
  {
    if path != "" {
      SplitDot(path[1..]);
    }
    assert '.' in "." && '.' in "..";
  }

  /** `normalize_path`: both fast returns agree with the segment stack. */
  method NormalizePath(path: string) returns (r: string)
    ensures r == Normalized(path)
  {
    if '.' !in path {
      SplitDot(path);
      DotFreeFixed(path);
      return path;
    }
    var components := Split(path);
    if "." !in components && ".." !in components {
      DotFreeFixed(path);
      return path;
    }
    var output: seq<string> := [];
    for i := 0 to |components|
      invariant Reduce(output, components[i..]) == Reduce([], components)
    {
      var component := components[i];
      assert components[i..][0] == component && components[i..][1..] == components[i + 1..];
      if component == "." {
      } else if component == ".." {
        if output != [] && output != [""] {
          output := output[..|output| - 1];
        }
      } else {
        output := output + [component];
      }
    }
    r := Join(output);
  }

  function TotalLength(segments: seq<string>): nat
  {
    if segments == [] then 0 else |segments[0]| + 1 + TotalLength(segments[1..])
  }

  lemma {:induction false} TotalLengthSplit(a: seq<string>, b: seq<string>)
    ensures TotalLength(a + b) == TotalLength(a) + TotalLength(b)
  {
    if a == [] {
      assert a + b == b;
    } else {
      assert (a + b)[1..] == a[1..] + b;
      TotalLengthSplit(a[1..], b);
    }
  }

  lemma {:induction false} JoinLength(segments: seq<string>)
    ensures segments != [] ==> |Join(segments)| + 1 == TotalLength(segments)
  {
    if |segments| > 1 {
      JoinLength(segments[1..]);
    }
  }

  lemma VisitLength(output: seq<string>, component: string)
    ensures TotalLength(Visit(output, component)) <= TotalLength(output) + |component| + 1
  {
    TotalLengthSplit(output, [component]);
    if output != [] {
      var last := |output| - 1;
      assert output == output[..last] + [output[last]];
      TotalLengthSplit(output[..last], [output[last]]);
    }
  }

  /** What the stack keeps: slash-free segments, none of them a dot segment, never longer than its input. */
  lemma {:induction false} ReduceKeeps(output: seq<string>, components: seq<string>)
    requires NoDots(output) && forall i | 0 <= i < |output| :: NoSlash(output[i])
    requires forall i | 0 <= i < |components| :: NoSlash(components[i])
    ensures var r := Reduce(output, components);
            && NoDots(r) && (forall i | 0 <= i < |r| :: NoSlash(r[i]))
            && TotalLength(r) <= TotalLength(output) + TotalLength(components)
            && (output != [] && output[0] == "" ==> r != [] && r[0] == "")
    decreases |components|
  {
    if components != [] {
      VisitLength(output, components[0]);
      ReduceKeeps(Visit(output, components[0]), components[1..]);
    }
  }

  lemma NormalizedStack(path: string)
    ensures var r := Reduce([], Split(path));
            && NoDots(r) && (forall i | 0 <= i < |r| :: NoSlash(r[i]))
            && TotalLength(r) <= TotalLength(Split(path))
            && (StartsWith(path, "/") ==> r != [] && r[0] == "")
  {
    JoinSplit(path);
    ReduceKeeps([], Split(path));
    if StartsWith(path, "/") {
      assert Split(path)[0] == "" && Visit([], "") == [""];
      assert forall i | 0 <= i < |Split(path)[1..]| :: NoSlash(Split(path)[1..][i]);
      ReduceKeeps([""], Split(path)[1..]);
    }
  }

  /** The result has no dot segment, is never longer, and an absolute path stays empty or absolute. */
  lemma NormalizedShape(path: string)
    ensures var r := Normalized(path);
            && NoDots(Split(r)) && |r| <= |path|
            && (StartsWith(path, "/") ==> r == "" || r[0] == '/')
            && (path == "" ==> r == "")
  {
    NormalizedStack(path);
    JoinSplit(path);
    JoinLength(Split(path));
    var r := Reduce([], Split(path));
    JoinLength(r);
    if r != [] {
      SplitJoin(r);
    }
  }

  lemma NormalizeIdempotent(path: string)
    ensures Normalized(Normalized(path)) == Normalized(path)
  {
    NormalizedShape(path);
    DotFreeFixed(Normalized(path));
  }

  /** What a prefix leaves on the segment stack. */
  function Stack(p: string): seq<string> { Reduce([], Split(p)) }

  lemma PrefixStacks(p: string, q: string)
    ensures Normalized(p + "/" + q) == Join(Reduce(Stack(p), Split(q)))
    ensures Normalized(Normalized(p) + "/" + q)
            == Join(Reduce(if Stack(p) == [] then [""] else Stack(p), Split(q)))
  {
    EmptyPath();
    hide Split, Visit, Reduce, Join;
    var stack := Stack(p);
    NormalizedStack(p);
    SplitAppend(p, q);
    SplitAppend(Normalized(p), q);
    ReduceSplit([], Split(p), Split(q));
    if stack == [] {
      ReduceSplit([], [""], Split(q));
    } else {
      SplitJoin(stack);
      ReduceSplit([], stack, Split(q));
      ReduceDotFree([], stack);
      assert [] + stack == stack;
    }
  }

  lemma EmptyPath()
    ensures Split("") == [""] && Join([]) == "" && Reduce([], [""]) == [""]
  {
    ReduceTwo([], "", "");
    assert Visit([], "") == [""];
  }

  /** Normalising a prefix first makes no difference, whatever is appended, exactly when the segment loop is
      left with something of it: a prefix that cancels to nothing leaves the joining slash behind. */
  lemma NormalizePrefix(p: string)
    ensures (forall q: string :: Normalized(p + "/" + q) == Normalized(Normalized(p) + "/" + q)) <==> Stack(p) != []
  {
    hide Normalized, Reduce, Split, Join;
    forall q: string
      ensures Stack(p) != [] ==> Normalized(p + "/" + q) == Normalized(Normalized(p) + "/" + q)
    {
      PrefixStacks(p, q);
    }
    PrefixStacks(p, "b");
    AppendedToNothing();
    if Stack(p) == [] {
      var q := "b";
      assert Normalized(p + "/" + q) != Normalized(Normalized(p) + "/" + q);
    }
  }

  lemma AppendedToNothing()
    ensures Join(Reduce([], Split("b"))) == "b" && Join(Reduce([""], Split("b"))) == "/b"
  {
    SplitJoinOne("b");
    ReduceTwo([], "b", "b");
    ReduceTwo([""], "b", "b");
    assert Visit([""], "b") == ["", "b"] && Join(["b"]) == "b";
    assert ["", "b"][1..] == ["b"];
  }

  /** No absolute prefix is of that kind. */
  lemma AbsolutePrefix(p: string)
    requires StartsWith(p, "/")
    ensures Stack(p) != []
  {
    NormalizedStack(p);
  }

  lemma ReduceTwo(output: seq<string>, a: string, b: string)
    ensures Reduce(output, [a, b]) == Visit(Visit(output, a), b)
    ensures Reduce(output, [a]) == Visit(output, a)
  {
    assert [a, b][1..] == [b];
    assert Reduce(Visit(output, a), [b]) == Reduce(Visit(Visit(output, a), b), []);
    assert Reduce(output, [a]) == Reduce(Visit(output, a), []);
  }

  /** Segments in the middle that leave the stack as it was can be left out. */
  lemma MiddleCancels(p: string, middle: string, segments: seq<string>, q: string)
    requires Split(middle) == segments
    requires var stack := Reduce([], Split(p)); Reduce(stack, segments) == stack
    ensures Normalized(p + "/" + middle + "/" + q) == Normalized(p + "/" + q)
  {
    hide Split, Reduce, Join;
    SplitAppend(p, middle);
    SplitAppend(p + "/" + middle, q);
    SplitAppend(p, q);
    ReduceSplit([], Split(p) + segments, Split(q));
    ReduceSplit([], Split(p), segments);
    ReduceSplit([], Split(p), Split(q));
  }

  /** After an absolute path a `..` takes back the segment before it, empty or not, and a `.` does nothing;
      above the root a `..` does nothing either. */
  lemma DotSegmentsCancel(p: string, x: string, q: string)
    requires StartsWith(p, "/") && NoSlash(x) && x != "." && x != ".."
    ensures Normalized(p + "/" + (x + "/" + "..") + "/" + q) == Normalized(p + "/" + q)
    ensures Normalized(p + "/" + "." + "/" + q) == Normalized(p + "/" + q)
    ensures Normalized("" + "/" + ".." + "/" + q) == Normalized("" + "/" + q)
  {
    hide Visit, Reduce, Join, Normalized;
    SplitJoinOne(x);
    SplitJoinOne("..");
    SplitJoinOne(".");
    SplitJoinOne("");
    SplitAppend(x, "..");
    var stack := Reduce([], Split(p));
    NormalizedStack(p);
    VisitDots(stack, x);
    ReduceTwo(stack, x, "..");
    ReduceTwo(stack, ".", ".");
    ReduceTwo([""], "..", "..");
    ReduceTwo([], "", "");
    assert [x] + [".."] == [x, ".."];
    MiddleCancels(p, x + "/" + "..", [x, ".."], q);
    MiddleCancels(p, ".", ["."], q);
    MiddleCancels("", "..", [".."], q);
  }

  lemma SplitJoinOne(x: string)
    requires NoSlash(x)
    ensures Split(x) == [x]
  {
    SplitJoin([x]);
  }

  lemma VisitDots(stack: seq<string>, x: string)
    requires stack != [] && x != "." && x != ".."
    ensures Visit(Visit(stack, x), "..") == stack && Visit(stack, ".") == stack
    ensures Visit([], "") == [""] && Visit([""], "..") == [""]
  {
    assert (stack + [x])[..|stack|] == stack;
  }

  /** A prefix that cancels to nothing. */
  lemma NormalizeRelativePrefix()
    ensures Stack("a/..") == []
    ensures Normalized("a/.." + "/" + "b") == "b"
    ensures Normalized(Normalized("a/..") + "/" + "b") == "/b"
  {
    hide Normalized, Split, Join;
    SplitJoinOne("a");
    SplitJoinOne("..");
    SplitAppend("a", "..");
    assert "a" + "/" + ".." == "a/..";
    ReduceTwo([], "a", "..");
    assert ["a"] + [".."] == ["a", ".."];
    assert Visit(["a"], "..") == [];
    PrefixStacks("a/..", "b");
    AppendedToNothing();
  }

  /** Quoting acts on the segments one by one, so it neither makes nor hides a dot segment. */
  lemma {:induction false} QuotedSplit(s: string, safe: char -> bool)
    requires safe('%') && safe('/')
    requires NoDots(Split(s))
    ensures NoDots(Split(Quoted(s, safe)))
  {
    QuotedIsCharwise(s, safe);
    EscapedSplits(s, safe);
    forall i | 0 <= i < |Split(s)|
      ensures Escaped(Split(s)[i], safe) != "." && Escaped(Split(s)[i], safe) != ".."
    {
      EscapedDots(Split(s)[i], safe);
    }
  }

  lemma EscapedDots(t: string, safe: char -> bool)
    ensures Escaped(t, safe) == "." || Escaped(t, safe) == ".." ==> Escaped(t, safe) == t
  {
    if Escaped(t, safe) == "." || Escaped(t, safe) == ".." {
      EscapedClean(t, safe);
    }
  }

  function EscapedAll(segments: seq<string>, safe: char -> bool): (r: seq<string>)
    ensures |r| == |segments|
  {
    seq(|segments|, i requires 0 <= i < |segments| => Escaped(segments[i], safe))
  }

  lemma {:induction false} EscapedSplits(s: string, safe: char -> bool)
    requires safe('/')
    ensures Split(Escaped(s, safe)) == EscapedAll(Split(s), safe)
  {
    if s != "" {
      EscapedSplits(s[1..], safe);
      EscapedSplitsStep(s, safe);
    }
  }

  lemma EscapedAllHead(c: char, r: seq<string>, safe: char -> bool)
    requires r != []
    ensures EscapedAll([""] + r, safe) == [""] + EscapedAll(r, safe)
    ensures EscapedAll([[c] + r[0]] + r[1..], safe)
              == [Escape(c, safe) + EscapedAll(r, safe)[0]] + EscapedAll(r, safe)[1..]
  {
    assert ([c] + r[0])[1..] == r[0];
  }

  lemma EscapedSplitsStep(s: string, safe: char -> bool)
    requires s != "" && safe('/')
    requires Split(Escaped(s[1..], safe)) == EscapedAll(Split(s[1..]), safe)
    ensures Split(Escaped(s, safe)) == EscapedAll(Split(s), safe)
  {
    var head, tail := Escape(s[0], safe), Escaped(s[1..], safe);
    EscapedAllHead(s[0], Split(s[1..]), safe);
    if s[0] == '/' {
      assert (head + tail)[0] == '/' && (head + tail)[1..] == tail;
    } else {
      EscapeNoSlash(s[0], safe);
      SplitPrefix(head, tail);
    }
  }

  lemma EscapeNoSlash(c: char, safe: char -> bool)
    requires c != '/'
    ensures NoSlash(Escape(c, safe))
  {
    HexBytesAlphabet(Utf8(c));
  }

  /** `validate_path`. */
  predicate ValidPath(path: string, hasScheme: bool, hasAuthority: bool)
  {
    && (hasAuthority ==> path == "" || path[0] == '/')
    && (!hasScheme && !hasAuthority ==> !StartsWith(path, "//") && !StartsWith(path, ":"))
  }

  /** Validation, dot segments and quoting; None for InvalidURL. */
  function NormalPath(path: string, hasScheme: bool, hasAuthority: bool, safe: char -> bool): Option<string>
  {
    if !ValidPath(path, hasScheme, hasAuthority) then None
    else Some(Quoted(if hasScheme || hasAuthority then Normalized(path) else path, safe))
  }

  /** What holds of every path that comes out. */
  predicate PathForm(path: string, hasScheme: bool, hasAuthority: bool, safe: char -> bool)
  {
    && AllKept(path, safe)
    && ValidPath(path, hasScheme, hasAuthority)
    && (hasScheme || hasAuthority ==> NoDots(Split(path)))
  }

  /** Quoting keeps the leading characters path validation looks at. */
  lemma QuotedValidPath(path: string, hasScheme: bool, hasAuthority: bool, safe: char -> bool)
    requires safe('%') && safe('/')
    requires ValidPath(path, hasScheme, hasAuthority)
    ensures ValidPath(Quoted(path, safe), hasScheme, hasAuthority)
  {
    QuotedIsCharwise(path, safe);
    var q := Escaped(path, safe);
    if path != "" {
      assert q[0] != '%' ==> q[0] == path[0] && q[1..] == Escaped(path[1..], safe);
      if |path| > 1 {
        var t := Escaped(path[1..], safe);
        assert t[0] != '%' ==> t[0] == path[1];
      }
    }
  }

  lemma NormalPathForm(path: string, hasScheme: bool, hasAuthority: bool, safe: char -> bool)
    requires safe('%') && safe('/')
    ensures var r := NormalPath(path, hasScheme, hasAuthority, safe);
            r.Some? ==> PathForm(r.value, hasScheme, hasAuthority, safe)
  {
    if ValidPath(path, hasScheme, hasAuthority) {
      NormalizedShape(path);
      var n := if hasScheme || hasAuthority then Normalized(path) else path;
      QuotedValidPath(n, hasScheme, hasAuthority, safe);
      QuotedAlphabet(n, safe);
      if hasScheme || hasAuthority {
        QuotedSplit(n, safe);
      }
    }
  }

  /** Normalising such a path again leaves it alone. */
  lemma NormalPathAgain(path: string, hasScheme: bool, hasAuthority: bool, safe: char -> bool)
    requires safe('%') && PathForm(path, hasScheme, hasAuthority, safe)
    ensures NormalPath(path, hasScheme, hasAuthority, safe) == Some(path)
  {
    if hasScheme || hasAuthority {
      DotFreeFixed(path);
    }
    QuotedFixed(path, safe);
  }
}
