/**
 * The streaming loop of `main`: the HTTP body arrives one line at a time; each
 * non-empty line is decoded as a JSON frame, the first decoded frame is dropped,
 * and the `"response"` text of every later frame is echoed and collected, to be
 * joined into the menu text.
 */
module Streaming {
  import opened Wrappers
  import opened Text

  /** One line of the streamed body, as `json.loads` sees it. */
  datatype Line =
    | Blank                             // an empty line, skipped before decoding
    | Malformed                         // a line on which `json.loads` raises `JSONDecodeError`
    | Decoded(response: Option<string>) // a JSON object, with its `"response"` field if it has one

  /** The `"response"` fields of the decoded frames, in arrival order. */
  function Frames(lines: seq<Line>): seq<Option<string>>
    decreases |lines|
  {
    if lines == [] then []
    else
      var last := lines[|lines| - 1];
      Frames(lines[..|lines| - 1]) + (if last.Decoded? then [last.response] else [])
  }

  /** The values of the fields that are present, in order. */
  function Present(fields: seq<Option<string>>): seq<string>
    decreases |fields|
  {
    if fields == [] then []
    else
      var last := fields[|fields| - 1];
      Present(fields[..|fields| - 1]) + (if last.Some? then [last.value] else [])
  }

  /** What `options_text` holds at the end: the responses of the decoded frames after the first. */
  function Accumulated(lines: seq<Line>): seq<string> {
    var frames := Frames(lines);
    if frames == [] then [] else Present(frames[1..])
  }

  /**
   * The loop over `response.iter_lines()` followed by `"".join(options_text)`:
   * `echoed` is what is printed, fragment by fragment, and `text` the joined result.
   */
  method StreamResponse(lines: seq<Line>) returns (echoed: seq<string>, text: string)
    ensures echoed == Accumulated(lines)
    ensures text == Concat(Accumulated(lines))
  {
    var optionsText: seq<string> := [];
    echoed := [];
    var first := true;
    for i := 0 to |lines|
      invariant first <==> Frames(lines[..i]) == []
      invariant optionsText == Accumulated(lines[..i])
      invariant echoed == optionsText
    {
      assert lines[..i + 1][..i] == lines[..i];
      ghost var before := Frames(lines[..i]);
      match lines[i]
      case Blank =>
        assert Frames(lines[..i + 1]) == before + [] == before;
      case Malformed =>
        assert Frames(lines[..i + 1]) == before + [] == before;
      case Decoded(r) =>
        assert Frames(lines[..i + 1]) == before + [r];
        if first {
          assert [r][1..] == [];
          first := false;
        } else {
          assert Frames(lines[..i + 1])[1..] == before[1..] + [r];
          assert (before[1..] + [r])[..|before| - 1] == before[1..];
          assert Accumulated(lines[..i + 1])
              == Present(before[1..]) + (if r.Some? then [r.value] else []);
          if r.Some? {
            echoed := echoed + [r.value];
            optionsText := optionsText + [r.value];
          }
        }
    }
    assert lines[..|lines|] == lines;
    text := Concat(optionsText);
  }

  lemma {:induction false} FramesAppend(a: seq<Line>, b: seq<Line>)
    ensures Frames(a + b) == Frames(a) + Frames(b)
  {
    if b == [] {
      assert a + b == a;
    } else {
      assert (a + b)[..|a + b| - 1] == a + b[..|b| - 1];
      FramesAppend(a, b[..|b| - 1]);
    }
  }

  lemma {:induction false} PresentAppend(a: seq<Option<string>>, b: seq<Option<string>>)
    ensures Present(a + b) == Present(a) + Present(b)
  {
    if b == [] {
      assert a + b == a;
    } else {
      assert (a + b)[..|a + b| - 1] == a + b[..|b| - 1];
      PresentAppend(a, b[..|b| - 1]);
    }
  }

  /** The frames around one line. */
  lemma FramesAround(a: seq<Line>, l: Line, b: seq<Line>)
    ensures Frames(a + [l] + b) == Frames(a) + (if l.Decoded? then [l.response] else []) + Frames(b)
  {
    FramesAppend(a + [l], b);
    FramesAppend(a, [l]);
    FramesOne(l);
  }

  /** Frames of a single line. */
  lemma FramesOne(l: Line)
    ensures Frames([l]) == if l.Decoded? then [l.response] else []
  {
    assert [l][..0] == [];
  }

  /**
   * Blank and malformed lines contribute nothing, wherever they stand; in
   * particular one before the first frame does not use up the first-frame flag.
   */
  lemma NoiseIgnored(a: seq<Line>, noise: Line, b: seq<Line>)
    requires !noise.Decoded?
    ensures Accumulated(a + [noise] + b) == Accumulated(a + b)
  {
    FramesAppend(a + [noise], b);
    FramesAppend(a, [noise]);
    FramesOne(noise);
    assert Frames(a + [noise]) == Frames(a) + [];
    FramesAppend(a, b);
    assert Frames(a + [noise] + b) == Frames(a + b);
  }

  /**
   * The first decoded frame is dropped whatever it holds: after only blank or
   * malformed lines, any frame leaves the same result, the responses of what follows.
   */
  lemma FirstFrameDropped(a: seq<Line>, x: Option<string>, b: seq<Line>)
    requires Frames(a) == []
    ensures Accumulated(a + [Decoded(x)] + b) == Present(Frames(b))
  {
    FramesAppend(a + [Decoded(x)], b);
    FramesAppend(a, [Decoded(x)]);
    FramesOne(Decoded(x));
    assert ([x] + Frames(b))[1..] == Frames(b);
  }

  /** After the first frame, a frame without `"response"` contributes nothing. */
  lemma FrameWithoutResponseIgnored(a: seq<Line>, b: seq<Line>)
    requires Frames(a) != []
    ensures Accumulated(a + [Decoded(None)] + b) == Accumulated(a + b)
  {
    var fa, fb := Frames(a), Frames(b);
    LaterFrames(a, Decoded(None), b);
    AbsentIgnored(fa[1..], fb);
  }

  /** The frames after the first, once the first has been seen in `a`. */
  lemma LaterFrames(a: seq<Line>, l: Line, b: seq<Line>)
    requires Frames(a) != []
    ensures Accumulated(a + [l] + b)
         == Present(Frames(a)[1..] + (if l.Decoded? then [l.response] else []) + Frames(b))
    ensures Accumulated(a + b) == Present(Frames(a)[1..] + Frames(b))
  {
    var fa, fb := Frames(a), Frames(b);
    var fl := if l.Decoded? then [l.response] else [];
    FramesAround(a, l, b);
    FramesAppend(a, b);
    assert (fa + fl + fb)[1..] == fa[1..] + fl + fb;
    assert (fa + fb)[1..] == fa[1..] + fb;
  }

  /** An absent field adds no value. */
  lemma AbsentIgnored(x: seq<Option<string>>, y: seq<Option<string>>)
    ensures Present(x + [None] + y) == Present(x + y)
  {
    PresentAppend(x + [None], y);
    PresentAppend(x, [None]);
    PresentAppend(x, y);
    var none: seq<Option<string>> := [None];
    assert none[..0] == [];
    assert Present(x + [None]) == Present(x) + [];
  }

  /**
   * After the first frame, a frame's response is appended after everything
   * collected so far and before everything that follows: arrival order is kept.
   */
  lemma ResponseAppendedInOrder(a: seq<Line>, r: string, b: seq<Line>)
    requires Frames(a) != []
    ensures Accumulated(a + [Decoded(Some(r))] + b) == Accumulated(a) + [r] + Present(Frames(b))
  {
    var fa, fb := Frames(a), Frames(b);
    LaterFrames(a, Decoded(Some(r)), b);
    PresentAround(fa[1..], r, fb);
  }

  /** A present field adds its value between those of its neighbours. */
  lemma PresentAround(x: seq<Option<string>>, r: string, y: seq<Option<string>>)
    ensures Present(x + [Some(r)] + y) == Present(x) + [r] + Present(y)
  {
    PresentAppend(x + [Some(r)], y);
    PresentAppend(x, [Some(r)]);
    var one := [Some(r)];
    assert one[..0] == [];
  }
}
