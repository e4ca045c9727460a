/**
 * The newline-delimited text layout of a stored object: how a flush renders a
 * sequence of lines (every line followed by "\n") and how reading the object
 * back splits it into lines again, with the rules of Java's
 * `BufferedReader.readLine` (a line ends at "\n", at "\r" or at "\r\n"; a
 * final terminator does not start an empty last line).
 */
module LineFormat {

  predicate IsTerminator(c: char)
  {
    c == '\n' || c == '\r'
  }

  /** A line that `readLine` would return whole: it holds no terminator. */
  predicate Clean(line: string)
  {
    forall i :: 0 <= i < |line| ==> !IsTerminator(line[i])
  }

  predicate AllClean(lines: seq<string>)
  {
    forall k :: 0 <= k < |lines| ==> Clean(lines[k])
  }

  /** Every line followed by "\n", in order: what the flush's StringBuilder holds. */
  function Render(lines: seq<string>): (s: string)
    ensures |s| >= |lines|
  {
    if lines == [] then "" else lines[0] + "\n" + Render(lines[1..])
  }

  /** Rendered text is empty exactly when there are no lines, and otherwise ends with "\n". */
  lemma {:induction false} RenderEndsWithNewline(lines: seq<string>)
    ensures Render(lines) == "" <==> lines == []
    ensures lines != [] ==> Render(lines)[|Render(lines)| - 1] == '\n'
  {
    if lines != [] {
      var rest := Render(lines[1..]);
      assert Render(lines) == lines[0] + "\n" + rest;
      if lines[1..] != [] {
        RenderEndsWithNewline(lines[1..]);
      }
    }
  }

  /** Index of the first terminator in `s`, or `|s|` when there is none. */
  function LineEnd(s: string): (i: nat)
    ensures i <= |s| && Clean(s[..i])
    ensures i < |s| ==> IsTerminator(s[i])
  {
    if s == [] || IsTerminator(s[0]) then 0
    else
      var j := LineEnd(s[1..]);
      assert s[..1 + j] == [s[0]] + s[1..][..j];
      1 + j
  }

  /** The lines `readLine` returns, one call after another, until it returns null. */
  function Lines(s: string): (lines: seq<string>)
    ensures AllClean(lines)
    decreases |s|
  {
    if s == [] then []
    else
      var i := LineEnd(s);
      if i == |s| then [s]
      else
        var next := if s[i] == '\r' && i + 1 < |s| && s[i + 1] == '\n' then i + 2 else i + 1;
        [s[..i]] + Lines(s[next..])
  }

  /** Rendering distributes over concatenation: content written batch by batch reads in order. */
  lemma {:induction false} RenderAppend(a: seq<string>, b: seq<string>)
    ensures Render(a + b) == Render(a) + Render(b)
  {
    if a != [] {
      calc {
        Render(a + b);
        (a + b)[0] + "\n" + Render((a + b)[1..]);
        { assert (a + b)[1..] == a[1..] + b; }
        a[0] + "\n" + Render(a[1..] + b);
        { RenderAppend(a[1..], b); }
        a[0] + "\n" + Render(a[1..]) + Render(b);
      }
    } else {
      assert a + b == b;
    }
  }

  /** One more line appended: the shape of one loop step that appends `line + "\n"`. */
  lemma RenderSnoc(lines: seq<string>, i: nat)
    requires i < |lines|
    ensures Render(lines[..i + 1]) == Render(lines[..i]) + lines[i] + "\n"
  {
    assert lines[..i + 1] == lines[..i] + [lines[i]];
    RenderAppend(lines[..i], [lines[i]]);
    assert Render([lines[i]]) == lines[i] + "\n" + Render([]);
  }

  /** The first line of a clean line followed by "\n" ends exactly at that "\n". */
  lemma LineEndAt(s: string, j: nat)
    requires j < |s| && Clean(s[..j]) && IsTerminator(s[j])
    ensures LineEnd(s) == j
  {
  }

  /** Reading back rendered clean lines gives exactly those lines. */
  lemma {:induction false} LinesOfRender(lines: seq<string>)
    requires AllClean(lines)
    ensures Lines(Render(lines)) == lines
  {
    if lines != [] {
      var s := Render(lines);
      var l := lines[0];
      var rest := Render(lines[1..]);
      assert s == l + "\n" + rest;
      assert s[..|l|] == l;
      assert Clean(lines[0]);
      LineEndAt(s, |l|);
      assert s[|l| + 1..] == rest;
      LinesOfRender(lines[1..]);
      assert Lines(s) == [l] + Lines(rest);
    }
  }

  /** Reading an object, rewriting it from its lines and reading it again gives the same lines. */
  lemma RereadIsStable(s: string)
    ensures Lines(Render(Lines(s))) == Lines(s)
  {
    LinesOfRender(Lines(s));
  }
}
