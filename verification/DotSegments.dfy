/** The remove_dot_segments algorithm of section 5.2.4 of RFC 3986, which
    rewrites the path as a string, against the one-pass stack. */
module DotSegments {
  import opened Text
  import opened PathNormalize

  /** The length of the first path segment, with its initial "/" if there is one. */
  function FirstSegment(input: string): (n: nat)
    requires input != ""
    ensures 1 <= n <= |input|
  {
    1 + UpToSlash(input[1..])
  }

  function UpToSlash(s: string): (n: nat)
    ensures n <= |s|
  {
    if s == "" || s[0] == '/' then 0 else 1 + UpToSlash(s[1..])
  }

  /** Removes the last segment of the output and its preceding "/", if any. */
  function DropLastSegment(output: string): string {
    if output == "" || output[|output| - 1] == '/' then
      if output == "" then "" else output[..|output| - 1]
    else DropLastSegment(output[..|output| - 1])
  }

  /** Steps 2A to 2E. */
  function RemoveDots(input: string, output: string): string
    decreases |input|
  {
    if input == "" then output
    else if "../" <= input then RemoveDots(input[3..], output)
    else if "./" <= input then RemoveDots(input[2..], output)
    else if "/./" <= input then RemoveDots(input[2..], output)
    else if input == "/." then RemoveDots("/", output)
    else if "/../" <= input then RemoveDots(input[3..], DropLastSegment(output))
    else if input == "/.." then RemoveDots("/", DropLastSegment(output))
    else if input == "." || input == ".." then RemoveDots("", output)
    else
      var n := FirstSegment(input);
      RemoveDots(input[n..], output + input[..n])
  }

  function RemoveDotSegments(path: string): string {
    RemoveDots(path, "")
  }

  /** The output buffer that corresponds to a stack: a "/" before each segment. */
  function Slashed(stack: seq<string>): string {
    if stack == [] then "" else Slashed(stack[..|stack| - 1]) + "/" + stack[|stack| - 1]
  }

  lemma {:induction false} UpToSlashPlain(s: string, rest: string)
    requires Plain(s, '/') && (rest == "" || rest[0] == '/')
    ensures UpToSlash(s + rest) == |s|
  {
    if s == "" {
      assert s + rest == rest;
    } else {
      assert (s + rest)[1..] == s[1..] + rest;
      UpToSlashPlain(s[1..], rest);
    }
  }

  lemma {:induction false} DropPlain(output: string, s: string)
    requires Plain(s, '/')
    ensures DropLastSegment(output + "/" + s) == output
  {
    var whole := output + "/" + s;
    var n := |whole| - 1;
    if s == "" {
      assert whole[..n] == output;
    } else {
      assert whole[..n] == output + "/" + s[..|s| - 1];
      assert whole[n] == s[|s| - 1];
      DropPlain(output, s[..|s| - 1]);
    }
  }

  lemma DropSlashed(stack: seq<string>)
    requires AllOrdinary(stack)
    ensures DropLastSegment(Slashed(stack)) == if stack == [] then "" else Slashed(stack[..|stack| - 1])
  {
    if stack != [] {
      DropPlain(Slashed(stack[..|stack| - 1]), stack[|stack| - 1]);
    }
  }

  /** "/" + s at the front of the input, s ordinary: step 2E moves it. */
  lemma MovesOrdinary(s: string, rest: string, output: string)
    requires Ordinary(s) && (rest == "" || rest[0] == '/')
    ensures RemoveDots("/" + s + rest, output) == RemoveDots(rest, output + "/" + s)
  {
    var input := "/" + s + rest;
    assert input[1..] == s + rest;
    UpToSlashPlain(s, rest);
    assert input[..1 + |s|] == "/" + s && input[1 + |s|..] == rest;
    assert input[1] == s[0];
    NotDots(s, rest);
    assert output + ("/" + s) == output + "/" + s;
  }

  /** An ordinary segment is not mistaken for a dot segment. */
  lemma NotDots(s: string, rest: string)
    requires Ordinary(s) && (rest == "" || rest[0] == '/')
    ensures
      var input := "/" + s + rest;
      !("/./" <= input) && input != "/." && !("/../" <= input) && input != "/.." && !StartsRelative(input)
  {
    var input := "/" + s + rest;
    SlashIsAbsolute(s + rest);
    assert input == "/" + (s + rest);
    assert forall i :: 0 <= i < |s| ==> input[1 + i] == s[i] && s[i] in s;
    if s[0] != '.' {
      NotPrefix("/./", input, 1);
      NotPrefix("/.", input, 1);
      NotPrefix("/../", input, 1);
      NotPrefix("/..", input, 1);
    } else {
      assert |s| >= 2 by { assert s != [s[0]]; }
      NotPrefix("/./", input, 2);
      if s[1] != '.' {
        NotPrefix("/../", input, 2);
        NotPrefix("/..", input, 2);
      } else {
        assert |s| >= 3 by { assert s != [s[0], s[1]]; }
        NotPrefix("/../", input, 3);
      }
    }
  }

  lemma NotPrefix(p: string, s: string, i: nat)
    requires i < |p| && i < |s| && p[i] != s[i]
    ensures !(p <= s) && p != s
  {
  }

  /** Steps 2A and 2D are for relative input only. */
  predicate StartsRelative(input: string) {
    input == "" || "../" <= input || "./" <= input || input == "." || input == ".."
  }

  lemma SlashIsAbsolute(s: string)
    ensures !StartsRelative("/" + s)
  {
    var input := "/" + s;
    assert input[0] == '/';
    NotPrefix("../", input, 0);
    NotPrefix("./", input, 0);
    NotPrefix(".", input, 0);
    NotPrefix("..", input, 0);
  }

  lemma DotBeforeMore(rest: string, output: string)
    requires rest != "" && rest[0] == '/'
    ensures RemoveDots("/." + rest, output) == RemoveDots(rest, output)
  {
    var input := "/." + rest;
    assert input == "/" + ("." + rest);
    SlashIsAbsolute("." + rest);
    assert input[..3] == "/./" && input[2..] == rest;
    assert "/./" <= input;
  }

  lemma DotDotBeforeMore(rest: string, output: string)
    requires rest != "" && rest[0] == '/'
    ensures RemoveDots("/.." + rest, output) == RemoveDots(rest, DropLastSegment(output))
  {
    var input := "/.." + rest;
    assert input == "/" + (".." + rest);
    SlashIsAbsolute(".." + rest);
    assert input[..4] == "/../" && input[3..] == rest;
    assert "/../" <= input;
    NotPrefix("/./", input, 2);
  }

  lemma DotLast(output: string)
    ensures RemoveDots("/.", output) == output + "/"
    ensures RemoveDots("/..", output) == DropLastSegment(output) + "/"
  {
    SlashIsAbsolute(".");
    SlashIsAbsolute("..");
    assert "/" + "." == "/." && "/" + ".." == "/..";
    NotPrefix("/./", "/..", 2);
    SlashAlone(output);
    SlashAlone(DropLastSegment(output));
  }

  lemma SlashAlone(output: string)
    ensures RemoveDots("/", output) == output + "/"
  {
    assert FirstSegment("/") == 1 && "/"[1..] == "" && "/"[..1] == "/";
    assert RemoveDots("", output + "/") == output + "/";
  }

  /** A last segment that leaves a slash behind. */
  predicate LeavesSlash(last: string) {
    last == "" || last == "." || last == ".."
  }

  /** The segments of an absolute path: only the last may be empty. */
  ghost predicate PathSegments(segments: seq<string>) {
    && segments != []
    && AllPlain(segments, '/')
    && forall i :: 0 <= i < |segments| - 1 ==> segments[i] != ""
  }

  lemma RewritesLast(last: string, stack: seq<string>)
    requires Plain(last, '/') && AllOrdinary(stack)
    ensures
      RemoveDots("/" + last, Slashed(stack)) ==
      Slashed(PushSegment(stack, last)) + if LeavesSlash(last) then "/" else ""
  {
    var output := Slashed(stack);
    if last == "" {
      assert "/" + last == "/";
      SlashAlone(output);
    } else if last == "." {
      assert "/" + last == "/.";
      DotLast(output);
    } else if last == ".." {
      assert "/" + last == "/..";
      DropSlashed(stack);
      DotLast(output);
    } else {
      MovesOrdinary(last, "", output);
      assert "/" + last + "" == "/" + last;
      assert (stack + [last])[..|stack|] == stack;
      assert RemoveDots("", output + "/" + last) == output + "/" + last;
      assert output + "/" + last + "" == output + "/" + last;
    }
  }

  lemma RewritesFirst(first: string, rest: string, stack: seq<string>)
    requires Plain(first, '/') && first != "" && AllOrdinary(stack) && rest != "" && rest[0] == '/'
    ensures RemoveDots("/" + first + rest, Slashed(stack)) == RemoveDots(rest, Slashed(PushSegment(stack, first)))
  {
    if first == "." {
      assert "/" + first + rest == "/." + rest;
      DotBeforeMore(rest, Slashed(stack));
    } else if first == ".." {
      assert "/" + first + rest == "/.." + rest;
      DotDotBeforeMore(rest, Slashed(stack));
      DropSlashed(stack);
    } else {
      MovesOrdinary(first, rest, Slashed(stack));
      assert (stack + [first])[..|stack|] == stack;
    }
  }

  /** Rewriting the path and pushing its segments keep in step. */
  lemma {:induction false} RewritingIsStack(segments: seq<string>, stack: seq<string>)
    requires PathSegments(segments) && AllOrdinary(stack)
    ensures
      RemoveDots("/" + Join(segments, "/"), Slashed(stack)) ==
      Slashed(Resolve(stack, segments)) + if LeavesSlash(segments[|segments| - 1]) then "/" else ""
    decreases |segments|
  {
    var first, rest := segments[0], segments[1..];
    if rest == [] {
      RewritesLast(first, stack);
      assert Resolve(PushSegment(stack, first), rest) == PushSegment(stack, first);
    } else {
      assert "/" + Join(segments, "/") == "/" + first + ("/" + Join(rest, "/"));
      RewritesFirst(first, "/" + Join(rest, "/"), stack);
      ResolveLeavesOrdinary(stack, [first]);
      RewritingIsStack(rest, PushSegment(stack, first));
    }
  }

  lemma {:induction false} SlashedIsJoin(stack: seq<string>)
    requires stack != []
    ensures Slashed(stack) == "/" + Join(stack, "/")
  {
    var init, last := stack[..|stack| - 1], stack[|stack| - 1];
    if init != [] {
      SlashedIsJoin(init);
      JoinLast(init, last);
      assert init + [last] == stack;
      assert "/" + Join(init, "/") + "/" + last == "/" + (Join(init, "/") + "/" + last);
    } else {
      assert stack == [last];
      assert "" + "/" + last == "/" + last;
    }
  }

  lemma {:induction false} JoinLast(parts: seq<string>, last: string)
    requires parts != []
    ensures Join(parts + [last], "/") == Join(parts, "/") + "/" + last
  {
    var whole := parts + [last];
    assert whole[1..] == parts[1..] + [last];
    if |parts| > 1 {
      JoinLast(parts[1..], last);
    } else {
      assert whole[1..] == [last];
    }
  }

  /** Absolute, and no segment but the last is empty. */
  ghost predicate NoEmptyInside(path: string) {
    IsAbsolute(path) && PathSegments(Split(path[1..], '/'))
  }

  function LastSegment(path: string): string {
    var parts := Split(path, '/');
    parts[|parts| - 1]
  }

  lemma SplitAbsolute(path: string)
    requires IsAbsolute(path)
    ensures Split(path, '/') == [""] + Split(path[1..], '/')
    ensures path == "/" + Join(Split(path[1..], '/'), "/")
  {
    assert path == ['/'] + path[1..];
    SplitCons('/', path[1..], '/');
    JoinSplit(path[1..], '/');
  }

  lemma AbsoluteStack(path: string)
    requires IsAbsolute(path)
    ensures StackOf(path) == Resolve([], Split(path[1..], '/'))
    ensures LastSegment(path) == LastSegment(path[1..])
  {
    var segments := Split(path[1..], '/');
    SplitAbsolute(path);
    EmptySegmentFirst(segments);
  }

  lemma EmptySegmentFirst(segments: seq<string>)
    ensures Resolve([], [""] + segments) == Resolve([], segments)
    ensures segments != [] ==> ([""] + segments)[|segments|] == segments[|segments| - 1]
  {
    assert ([""] + segments)[1..] == segments;
  }

  lemma RendersSlashed(stack: seq<string>)
    ensures Render(true, stack) == if stack == [] then "/" else Slashed(stack)
  {
    if stack != [] {
      SlashedIsJoin(stack);
    }
  }

  /** On absolute paths without empty inner segments the two algorithms differ
      only by the slash the standard leaves after a last segment that is empty,
      `.` or `..`. */
  lemma RemoveDotSegmentsIsNormalize(path: string)
    requires NoEmptyInside(path)
    ensures RemoveDotSegments(path) ==
      Normalize(path) + if LeavesSlash(LastSegment(path)) && Normalize(path) != "/" then "/" else ""
  {
    var segments := Split(path[1..], '/');
    AbsoluteStack(path);
    SplitAbsolute(path);
    RewritingIsStack(segments, []);
    var stack := StackOf(path);
    RendersSlashed(stack);
    if stack == [] {
      if !LeavesSlash(LastSegment(path)) {
        LastIsPushed([], segments);
      }
      assert "" + "/" == "/";
    } else {
      StackIsOrdinary(path);
      JoinNotEmpty(stack);
      SlashedIsJoin(stack);
    }
  }

  /** An ordinary last segment is on the stack at the end. */
  lemma {:induction false} LastIsPushed(stack: seq<string>, segments: seq<string>)
    requires segments != [] && !LeavesSlash(segments[|segments| - 1])
    ensures Resolve(stack, segments) != []
    decreases |segments|
  {
    if |segments| > 1 {
      LastIsPushed(PushSegment(stack, segments[0]), segments[1..]);
    }
  }

  /** They agree exactly when the last segment is an ordinary name or the path
      resolves to the root. */
  lemma AgreeExactly(path: string)
    requires NoEmptyInside(path)
    ensures RemoveDotSegments(path) == Normalize(path)
      <==> !LeavesSlash(LastSegment(path)) || Normalize(path) == "/"
  {
    RemoveDotSegmentsIsNormalize(path);
    assert |Normalize(path) + "/"| != |Normalize(path)|;
  }
}
