/** Path normalisation: one pass over the segments with a stack. */
module PathNormalize {
  import opened Text

  function PushSegment(stack: seq<string>, segment: string): seq<string> {
    if segment == "" || segment == "." then stack
    else if segment == ".." then (if stack == [] then [] else stack[..|stack| - 1])
    else stack + [segment]
  }

  function Resolve(stack: seq<string>, segments: seq<string>): seq<string>
    decreases |segments|
  {
    if segments == [] then stack else Resolve(PushSegment(stack, segments[0]), segments[1..])
  }

  predicate IsAbsolute(path: string) {
    path != "" && path[0] == '/'
  }

  function Render(absolute: bool, stack: seq<string>): string {
    var result := (if absolute then "/" else "") + Join(stack, "/");
    if result == "" then "/" else result
  }

  function Normalize(path: string): string {
    Render(IsAbsolute(path), Resolve([], Split(path, '/')))
  }

  method NormalizeByStack(input: string) returns (result: string)
    ensures result == Normalize(input)
  {
    var out: seq<string> := [];
    var segments := Split(input, '/');
    for i := 0 to |segments|
      invariant Resolve(out, segments[i..]) == Resolve([], segments)
    {
      assert segments[i..][1..] == segments[i + 1..];
      if segments[i] == "" || segments[i] == "." {
        continue;
      } else if segments[i] == ".." {
        if out != [] {
          out := out[..|out| - 1];
        }
      } else {
        out := out + [segments[i]];
      }
    }
    result := "";
    if IsAbsolute(input) {
      result := result + "/";
    }
    result := result + Join(out, "/");
    if result == "" {
      result := "/";
    }
  }

  // The stack.

  ghost predicate Ordinary(segment: string) {
    segment != "" && segment != "." && segment != ".." && Plain(segment, '/')
  }

  ghost predicate AllOrdinary(segments: seq<string>) {
    forall i :: 0 <= i < |segments| ==> Ordinary(segments[i])
  }

  lemma {:induction false} ResolveConcat(stack: seq<string>, p: seq<string>, q: seq<string>)
    ensures Resolve(stack, p + q) == Resolve(Resolve(stack, p), q)
    decreases |p|
  {
    if p == [] {
      assert p + q == q;
    } else {
      assert (p + q)[1..] == p[1..] + q;
      ResolveConcat(PushSegment(stack, p[0]), p[1..], q);
    }
  }

  lemma {:induction false} ResolveOrdinary(stack: seq<string>, segments: seq<string>)
    requires AllOrdinary(segments)
    ensures Resolve(stack, segments) == stack + segments
    decreases |segments|
  {
    if segments == [] {
      assert stack + segments == stack;
    } else {
      ResolveOrdinary(stack + [segments[0]], segments[1..]);
      assert stack + [segments[0]] + segments[1..] == stack + segments;
    }
  }

  lemma {:induction false} ResolveLeavesOrdinary(stack: seq<string>, segments: seq<string>)
    requires AllOrdinary(stack) && AllPlain(segments, '/')
    ensures AllOrdinary(Resolve(stack, segments))
    decreases |segments|
  {
    if segments != [] {
      ResolveLeavesOrdinary(PushSegment(stack, segments[0]), segments[1..]);
    }
  }

  /** The stack a path resolves to. */
  function StackOf(path: string): seq<string> {
    Resolve([], Split(path, '/'))
  }

  lemma StackIsOrdinary(path: string)
    ensures AllOrdinary(StackOf(path))
  {
    SplitAllPlain(path, '/');
    ResolveLeavesOrdinary([], Split(path, '/'));
  }

  lemma {:induction false} JoinNotEmpty(stack: seq<string>)
    requires AllOrdinary(stack) && stack != []
    ensures Join(stack, "/") != "" && Join(stack, "/")[0] != '/'
  {
    assert stack[0][0] in stack[0];
    assert Join(stack, "/")[0] == stack[0][0];
  }

  /** What splits out of a rendered stack: the stack, after an empty segment if
      the path is absolute. */
  lemma SplitRender(absolute: bool, stack: seq<string>)
    requires AllOrdinary(stack)
    ensures
      var rendered := Render(absolute, stack);
      (stack != [] ==> Split(rendered, '/') == (if absolute then [""] else []) + stack) &&
      (stack == [] ==> rendered == "/") &&
      (IsAbsolute(rendered) <==> absolute || stack == []) &&
      StackOf(rendered) == stack
  {
    var joined := Join(stack, "/");
    if stack == [] {
      assert Split("/", '/') == ["", ""] by {
        assert "/"[1..] == "";
      }
      assert Resolve([], ["", ""]) == Resolve([], [""]) == [] by {
        assert ["", ""][1..] == [""] && [""][1..] == [];
      }
    } else {
      JoinNotEmpty(stack);
      SplitJoin(stack, '/');
      ResolveOrdinary([], stack);
      assert [] + stack == stack;
      if absolute {
        assert Render(absolute, stack) == ['/'] + joined;
        SplitCons('/', joined, '/');
        assert ([""] + stack)[1..] == stack;
      } else {
        assert Render(absolute, stack) == joined;
      }
    }
  }

  /** Normalising twice is normalising once. */
  lemma NormalizeIdempotent(path: string)
    ensures Normalize(Normalize(path)) == Normalize(path)
  {
    StackIsOrdinary(path);
    SplitRender(IsAbsolute(path), StackOf(path));
  }

  /** No segment of a normalised path is empty, `.` or `..`. */
  lemma NormalizedSegments(path: string)
    ensures
      var n := Normalize(path);
      n == "/" || AllOrdinary(if IsAbsolute(n) then Split(n, '/')[1..] else Split(n, '/'))
  {
    StackIsOrdinary(path);
    SplitRender(IsAbsolute(path), StackOf(path));
    var stack := StackOf(path);
    assert ([""] + stack)[1..] == stack && [] + stack == stack;
  }

  /** Normalising the first part of a path beforehand changes nothing, except
      when that part is relative and resolves to nothing: it then reads as the
      root. */
  lemma NormalizeFirst(a: string, b: string)
    ensures Normalize(a + "/" + b) == Normalize(Normalize(a) + "/" + b)
      <==> a == "" || IsAbsolute(a) || Normalize(a) != "/" || Normalize(b) == "/"
  {
    var sa := StackOf(a);
    var first, second := a + "/" + b, Normalize(a) + "/" + b;
    StackIsOrdinary(a);
    StackIsOrdinary(b);
    StackIsOrdinary(first);
    SplitRender(IsAbsolute(a), sa);
    SplitRender(IsAbsolute(b), StackOf(b));
    SplitConcat(a, b, '/');
    SplitConcat(Normalize(a), b, '/');
    ResolveConcat([], Split(a, '/'), Split(b, '/'));
    ResolveConcat([], Split(Normalize(a), '/'), Split(b, '/'));
    assert StackOf(first) == StackOf(second);
    var s := StackOf(first);
    SplitRender(true, s);
    SplitRender(false, s);
    assert IsAbsolute(first) <==> a == "" || IsAbsolute(a);
    assert IsAbsolute(second) <==> IsAbsolute(Normalize(a));
  }
}
