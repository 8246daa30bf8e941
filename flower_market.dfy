/** The flower-market vision panel: the uploaded image and the parsed answer,
    and the clean-up of the model's reply, which drops every markdown fence
    marker before the text is parsed as JSON. */
module FlowerMarket {
  import opened JsLib
  import GeminiService

  const JsonFence := "```json"
  const Fence := "```"

  const IdentifyPrompt := "Identify this flower species, estimate a current market price per stem (in USD), and give a confidence score. Return JSON format: { \"species\": \"...\", \"price\": \"...\", \"confidence\": \"...\" }"

  /** The answer the panel shows once the reply is parsed. */
  datatype FlowerResult = FlowerResult(species: string, price: string, confidence: string)

  /** Three backticks start at position `i` of `s`: `s[i..i + 3] == Fence`. */
  predicate FenceAt(s: string, i: int) {
    0 <= i && i + 3 <= |s| && s[i] == '`' && s[i + 1] == '`' && s[i + 2] == '`'
  }

  /** "```json" starts at position 0 of `s`: `s[..7] == JsonFence`. */
  predicate StartsWithJsonFence(s: string) {
    FenceAt(s, 0) && |s| >= 7 && s[3] == 'j' && s[4] == 's' && s[5] == 'o' && s[6] == 'n'
  }

  /** No three consecutive backticks anywhere in `s`. */
  predicate NoFence(s: string) {
    forall i :: 0 <= i < |s| ==> !FenceAt(s, i)
  }

  /** `s.replace(/```json|```/g, '')`: scanning left to right, at each
      position "```json" is tried first, then "```"; a match is dropped and the
      scan goes on after it, anything else is kept. */
  function StripFences(s: string): (r: string)
    ensures |r| <= |s|
  {
    if StartsWithJsonFence(s) then StripFences(s[|JsonFence|..])
    else if FenceAt(s, 0) then StripFences(s[|Fence|..])
    else if s == [] then []
    else [s[0]] + StripFences(s[1..])
  }

  /** The text handed to `JSON.parse`: the reply without fences, trimmed. */
  function CleanReply(text: string): (r: string)
    ensures r == [] || (!IsWhitespace(r[0]) && !IsWhitespace(r[|r| - 1]))
    ensures NoFence(r)
  {
    StripFencesLeavesNoFence(text);
    NoFenceSlice(StripFences(text), LeadingSpace(StripFences(text)), |Trim(StripFences(text))|);
    Trim(StripFences(text))
  }

  /** A string that does not start with a backtick keeps its first character. */
  lemma StripKeepsFirst(s: string)
    requires s != [] && s[0] != '`'
    ensures StripFences(s) == [s[0]] + StripFences(s[1..])
  {
  }

  /** No three backticks survive the replacement. */
  lemma {:induction false} StripFencesLeavesNoFence(s: string)
    ensures NoFence(StripFences(s))
    decreases |s|
  {
    if StartsWithJsonFence(s) {
      StripFencesLeavesNoFence(s[7..]);
    } else if FenceAt(s, 0) {
      StripFencesLeavesNoFence(s[3..]);
    } else if s != [] {
      var rest := StripFences(s[1..]);
      StripFencesLeavesNoFence(s[1..]);
      var r := [s[0]] + rest;
      assert StripFences(s) == r;
      forall i | 0 <= i < |r| ensures !FenceAt(r, i) {
        if i > 0 {
          assert !FenceAt(rest, i - 1);
        } else if s[0] == '`' {
          // A kept backtick is not followed by two more kept backticks.
          var t := s[1..];
          if t == [] {
            assert |r| == 1;
          } else if t[0] != '`' {
            StripKeepsFirst(t);
            assert r[1] != '`';
          } else if |t| == 1 {
            assert StripFences(t[1..]) == [];
            assert |r| == 2;
          } else {
            assert t[1] != '`';
            StripKeepsFirst(t[1..]);
            assert rest == [t[0]] + StripFences(t[1..]);
            assert r[2] != '`';
          }
        }
      }
    }
  }

  /** A slice of a fence-free string is fence-free. */
  lemma NoFenceSlice(s: string, a: nat, n: nat)
    requires NoFence(s) && a + n <= |s|
    ensures NoFence(s[a..a + n])
  {
    var t := s[a..a + n];
    forall i | 0 <= i < |t| ensures !FenceAt(t, i) {
      if FenceAt(t, i) {
        assert FenceAt(s, a + i);
      }
    }
  }

  /** The replacement leaves fence-free text untouched. */
  lemma {:induction false} StripFencesIdentity(s: string)
    requires NoFence(s)
    ensures StripFences(s) == s
    decreases |s|
  {
    if s != [] {
      assert !FenceAt(s, 0);
      NoFenceSlice(s, 1, |s| - 1);
      assert s[1..1 + (|s| - 1)] == s[1..];
      StripFencesIdentity(s[1..]);
    }
  }

  /** Cleaning a cleaned reply changes nothing. */
  lemma CleanReplyIdempotent(text: string)
    ensures CleanReply(CleanReply(text)) == CleanReply(text)
  {
    var c := CleanReply(text);
    StripFencesIdentity(c);
    TrimIdempotent(StripFences(text));
  }

  /** Text with no backtick at all passes through the replacement unchanged. */
  lemma {:induction false} StripFencesNoBacktick(s: string, t: string)
    requires '`' !in s
    ensures StripFences(s + t) == s + StripFences(t)
    decreases |s|
  {
    if s == [] {
      assert s + t == t;
    } else {
      StripKeepsFirst(s + t);
      assert (s + t)[1..] == s[1..] + t;
      StripFencesNoBacktick(s[1..], t);
    }
  }

  /** A reply with no backtick is only trimmed. */
  lemma CleanReplyNoBacktick(text: string)
    requires '`' !in text
    ensures CleanReply(text) == Trim(text)
  {
    StripFencesNoBacktick(text, []);
    assert text + [] == text;
  }

  /** A reply of the form "```json" body "```", with no backtick in the body,
      cleans to the trimmed body. */
  lemma CleanReplyFenced(body: string)
    requires '`' !in body
    ensures CleanReply(JsonFence + body + Fence) == Trim(body)
  {
    var s := JsonFence + body + Fence;
    assert StartsWithJsonFence(s);
    assert s[7..] == body + Fence;
    StripFencesNoBacktick(body, Fence);
    assert FenceAt(Fence, 0) && Fence[3..] == [];
    assert body + [] == body;
  }

  /** No match straddles the boundary between text that does not end with a
      backtick and text that starts with one, so the two are cleaned apart. */
  lemma {:induction false} StripSplitsAt(a: string, b: string)
    requires a == [] || a[|a| - 1] != '`'
    requires b == [] || b[0] == '`'
    ensures StripFences(a + b) == StripFences(a) + StripFences(b)
    decreases |a|
  {
    var s := a + b;
    if a == [] {
      assert s == b;
    } else if StartsWithJsonFence(a) {
      assert StartsWithJsonFence(s) && s[7..] == a[7..] + b;
      StripSplitsAt(a[7..], b);
    } else if FenceAt(a, 0) {
      // `a` is "```" and one to three letters of "json": a backtick or the end
      // of the text follows them in `s`, so `s` does not start with "```json".
      assert |a| > 3;
      assert |s| >= 7 ==> |a| >= 7 || s[|a|] == '`';
      assert !StartsWithJsonFence(s);
      assert s[3..] == a[3..] + b;
      StripSplitsAt(a[3..], b);
    } else {
      // Among the first three characters of `s` is one of `a` that is not a
      // backtick (its last one when `a` is shorter than three).
      assert !FenceAt(s, 0) by {
        if |a| < 3 {
          assert s[|a| - 1] == a[|a| - 1];
        } else {
          assert s[..3] == a[..3];
        }
      }
      assert s[0] == a[0] && s[1..] == a[1..] + b;
      StripSplitsAt(a[1..], b);
    }
  }

  /** "```json" is dropped whole wherever the scan reaches it: anywhere that
      does not follow a backtick, whatever precedes or follows it. */
  lemma JsonFenceDroppedWhole(before: string, after: string)
    requires before == [] || before[|before| - 1] != '`'
    ensures StripFences(before + JsonFence + after) == StripFences(before) + StripFences(after)
  {
    var t := JsonFence + after;
    assert before + JsonFence + after == before + t;
    StripSplitsAt(before, t);
    assert StartsWithJsonFence(t) && t[7..] == after;
  }

  /** A reply with two fenced JSON blocks on separate lines loses all four
      markers; the two bodies are kept with the line break between them. */
  lemma CleanReplyTwoBlocks(first: string, second: string)
    requires '`' !in first && '`' !in second
    ensures StripFences(JsonFence + first + Fence + "\n" + JsonFence + second + Fence) == first + "\n" + second
  {
    var before := JsonFence + first + Fence + "\n";
    assert JsonFence + first + Fence + "\n" + JsonFence + second + Fence == before + JsonFence + (second + Fence);
    JsonFenceDroppedWhole(before, second + Fence);
    // The first block: the marker, the body, the closing marker, the newline.
    assert StartsWithJsonFence(before) && before[7..] == first + (Fence + "\n");
    StripFencesNoBacktick(first, Fence + "\n");
    var closing := Fence + "\n";
    assert FenceAt(closing, 0) && !StartsWithJsonFence(closing) && closing[3..] == "\n";
    StripFencesNoBacktick("\n", []);
    assert "\n" + [] == "\n";
    // The second block: the body, then the closing marker.
    StripFencesNoBacktick(second, Fence);
    assert FenceAt(Fence, 0) && Fence[3..] == [];
    assert second + [] == second;
  }

  /** After a stray backtick the scan matches "```" first, so the "json" of a
      following "```json" survives. */
  lemma BacktickBeforeJsonFence()
    ensures StripFences("````json") == "`json"
  {
    var s := "````json";
    assert FenceAt(s, 0) && !StartsWithJsonFence(s);
    var t := s[3..];
    assert t == "`json";
    assert !FenceAt(t, 0);
    StripFencesNoBacktick("json", []);
    assert "json" + [] == "json";
    assert t[1..] == "json";
  }

  /** Two whole runs of three backticks before "json" are both removed: the
      scan drops "```" first, then meets a complete "```json". */
  lemma SixBackticksJson()
    ensures StripFences("``````json") == ""
  {
    var s := "``````json";
    assert FenceAt(s, 0) && !StartsWithJsonFence(s);
    var t := s[3..];
    assert t == JsonFence && StartsWithJsonFence(t) && t[7..] == [];
  }

  // ---------------------------------------------------------------------------
  // Panel state

  /** The state of the flower-market panel. */
  class FlowerPanel {
    var image: Option<string>
    var result: Option<FlowerResult>

    constructor ()
      ensures image == None && result == None
    {
      image := None;
      result := None;
    }

    /** `handleUpload`: when a file was chosen, the reader's `onloadend` shows
        what it read (`null` when the read failed) and drops the previous
        answer; nothing happens when no file was chosen. */
    method Upload(chosen: bool, readResult: Option<string>)
      modifies this
      ensures chosen ==> image == readResult && result == None
      ensures !chosen ==> image == old(image) && result == old(result)
    {
      if chosen {
        image := readResult;
        result := None;
      }
    }

    /** "Clear": forget the image, keep the last answer. */
    method Clear()
      modifies this
      ensures image == None && result == old(result)
    {
      image := None;
    }

    /** The request "Identify Flower" sends for the current image. */
    method IdentifyRequest() returns (q: GeminiService.ImageRequest)
      requires image.Some?
      ensures q.prompt == IdentifyPrompt && q.model == GeminiService.FlashModel
      ensures q.data == GeminiService.StripDataUrlHeader(image.value)
    {
      q := GeminiService.AnalyzeImage(IdentifyPrompt, image.value);
    }

    /** The mutation's `onSuccess`: show the parsed answer, image untouched. */
    method AnalysisSucceeded(data: FlowerResult)
      modifies this
      ensures result == Some(data) && image == old(image)
    {
      result := Some(data);
    }
  }
}
