/** The transaction-input validator of the financial-crime panel
    (`handleAnalyze`) and the panel state it writes: the pasted text, the
    error line shown under it, and the "analysing" flag. */
module FinancialInput {
  import opened JsLib

  const EmptyInputMessage := "Input cannot be empty"
  const InvalidPrefix := "Invalid format in "
  const InvalidSuffix := " line(s). Use CSV or Alphanumeric IDs."

  /** A character of the class `[a-zA-Z0-9-_]` (the `-` there is a literal). */
  predicate IsIdChar(c: char) {
    ('a' <= c <= 'z') || ('A' <= c <= 'Z') || ('0' <= c <= '9') || c == '-' || c == '_'
  }

  /** `/^[a-zA-Z0-9-_]+$/.test(t)`. */
  predicate IsId(t: string) {
    |t| > 0 && forall i :: 0 <= i < |t| ==> IsIdChar(t[i])
  }

  /** A line the `filter(line => line.trim())` step drops. */
  predicate IsBlank(line: string) {
    Trim(line) == []
  }

  predicate IsNonBlank(line: string) {
    !IsBlank(line)
  }

  /** A line that is neither CSV (it has a comma) nor an identifier once trimmed. */
  predicate IsRejected(line: string) {
    ',' !in line && !IsId(Trim(line))
  }

  /** The identifier class accepts the placeholder's example and refuses
      the empty text, inner spaces and other punctuation. */
  lemma IdExamples()
    ensures IsId("TXN-12345") && IsId("a_b-9")
    ensures !IsId("") && !IsId("TXN 12345") && !IsId("TXN.1")
  {
    assert !IsIdChar(' ') && !IsIdChar('.');
    assert "TXN 12345"[3] == ' ' && "TXN.1"[3] == '.';
  }

  /** A line with a comma is never rejected, whatever else it holds. */
  lemma CsvLineAccepted(line: string)
    requires ',' in line
    ensures !IsRejected(line)
  {
  }

  /** An identifier padded with white space on either side is not rejected. */
  lemma PaddedIdAccepted(pre: string, id: string, post: string)
    requires forall i :: 0 <= i < |pre| ==> IsWhitespace(pre[i])
    requires forall i :: 0 <= i < |post| ==> IsWhitespace(post[i])
    requires IsId(id)
    ensures !IsRejected(pre + id + post)
  {
    assert IsIdChar(id[0]) && IsIdChar(id[|id| - 1]);
    TrimPadded(pre, id, post);
  }

  /** Free text without a comma is rejected. */
  lemma FreeTextRejected()
    ensures IsRejected("hello world") && IsRejected("TXN#1")
  {
    TextRejected("hello world", 5);
    TextRejected("TXN#1", 3);
  }

  lemma TextRejected(line: string, k: nat)
    requires ',' !in line && k < |line| && !IsIdChar(line[k])
    requires !IsWhitespace(line[0]) && !IsWhitespace(line[|line| - 1])
    ensures IsRejected(line)
  {
    TrimIdentity(line);
  }

  /** What one press of "Analyze Data" decides about the input. */
  datatype Verdict = EmptyInput | InvalidLines(count: nat) | Accepted

  /** `input.split('\n').filter(line => line.trim())`. */
  function Lines(input: string): seq<string> {
    Filter(Split(input, '\n'), IsNonBlank)
  }

  /** The lines kept are exactly the non-blank pieces between line breaks,
      each as often as it occurs. */
  lemma LinesAreNonBlankPieces(input: string)
    ensures forall line :: line in Lines(input) <==> line in Split(input, '\n') && IsNonBlank(line)
    ensures forall line :: multiset(Lines(input))[line] == if IsNonBlank(line) then multiset(Split(input, '\n'))[line] else 0
  {
    FilterMultiset(Split(input, '\n'), IsNonBlank);
  }

  /** The decision `handleAnalyze` takes on `input`. */
  function Validate(input: string): (v: Verdict)
    ensures v == EmptyInput <==> forall i :: 0 <= i < |input| ==> IsWhitespace(input[i])
    ensures v.InvalidLines? ==> 0 < v.count <= |Split(input, '\n')|
  {
    if Trim(input) == [] then EmptyInput
    else
      var invalid := Filter(Lines(input), IsRejected);
      if |invalid| > 0 then InvalidLines(|invalid|) else Accepted
  }

  /** The input is accepted exactly when it is not blank and every non-blank
      line is CSV or an identifier. */
  lemma AcceptedIff(input: string)
    ensures Validate(input) == Accepted <==>
      !IsBlank(input) && forall line :: line in Split(input, '\n') && IsNonBlank(line) ==> !IsRejected(line)
  {
    var lines := Lines(input);
    FilterEmptyIff(lines, IsRejected);
    assert (forall line :: line in lines ==> !IsRejected(line))
       <==> (forall line :: line in Split(input, '\n') && IsNonBlank(line) ==> !IsRejected(line));
  }

  /** Reference count of rejected lines, in one pass over the raw lines. */
  function CountRejected(lines: seq<string>): (n: nat)
    ensures n <= |lines|
  {
    if lines == [] then 0
    else (if !IsBlank(lines[0]) && IsRejected(lines[0]) then 1 else 0) + CountRejected(lines[1..])
  }

  lemma {:induction false} CountRejectedIsFilter(lines: seq<string>)
    ensures CountRejected(lines) == |Filter(Filter(lines, IsNonBlank), IsRejected)|
  {
    if lines != [] {
      CountRejectedIsFilter(lines[1..]);
      var head := if IsNonBlank(lines[0]) then [lines[0]] else [];
      FilterConcat(head, Filter(lines[1..], IsNonBlank), IsRejected);
      assert [lines[0]][1..] == [];
    }
  }

  /** The count in the error is the number of non-blank lines that are rejected. */
  lemma RejectedCountIsExact(input: string)
    requires !IsBlank(input)
    ensures CountRejected(Split(input, '\n')) > 0 ==> Validate(input) == InvalidLines(CountRejected(Split(input, '\n')))
    ensures CountRejected(Split(input, '\n')) == 0 ==> Validate(input) == Accepted
  {
    CountRejectedIsFilter(Split(input, '\n'));
  }

  /** Appending a line made of white space only never changes the verdict. */
  lemma BlankLineIgnored(input: string, blank: string)
    requires forall i :: 0 <= i < |blank| ==> IsWhitespace(blank[i])
    ensures Validate(input + "\n" + blank) == Validate(input)
  {
    BlankTailAddsNoLine(input, blank);
    BlankTailKeepsBlankness(input, blank);
  }

  /** A white-space tail after a line break adds no non-blank line. */
  lemma BlankTailAddsNoLine(input: string, blank: string)
    requires forall i :: 0 <= i < |blank| ==> IsWhitespace(blank[i])
    ensures Lines(input + "\n" + blank) == Lines(input)
  {
    SplitConcat(input, blank, '\n');
    var extra := Split(blank, '\n');
    forall k | 0 <= k < |extra|
      ensures IsBlank(extra[k])
    {
      JoinSplit(blank, '\n');
      BlankPiece(extra, k, blank);
    }
    FilterConcat(Split(input, '\n'), extra, IsNonBlank);
    FilterEmptyIff(extra, IsNonBlank);
  }

  /** A white-space tail after a line break leaves an all-white-space input
      all white space, and any other input not. */
  lemma BlankTailKeepsBlankness(input: string, blank: string)
    requires forall i :: 0 <= i < |blank| ==> IsWhitespace(blank[i])
    ensures (forall i :: 0 <= i < |input + "\n" + blank| ==> IsWhitespace((input + "\n" + blank)[i]))
            <==> (forall i :: 0 <= i < |input| ==> IsWhitespace(input[i]))
  {
    var whole := input + "\n" + blank;
    if forall i :: 0 <= i < |input| ==> IsWhitespace(input[i]) {
      forall i | 0 <= i < |whole| ensures IsWhitespace(whole[i]) {
        if i < |input| { assert whole[i] == input[i]; }
        else if i > |input| { assert whole[i] == blank[i - |input| - 1]; }
      }
    } else {
      var j :| 0 <= j < |input| && !IsWhitespace(input[j]);
      assert whole[j] == input[j];
    }
  }

  /** Every piece of a white-space string is itself white space. */
  lemma BlankPiece(parts: seq<string>, k: nat, blank: string)
    requires |parts| >= 1 && k < |parts| && Join(parts, '\n') == blank
    requires forall i :: 0 <= i < |blank| ==> IsWhitespace(blank[i])
    ensures IsBlank(parts[k])
    decreases k
  {
    if |parts| == 1 {
      assert parts[k] == blank;
    } else {
      var tail := Join(parts[1..], '\n');
      assert blank == parts[0] + ['\n'] + tail;
      if k == 0 {
        assert forall i :: 0 <= i < |parts[0]| ==> parts[0][i] == blank[i];
      } else {
        assert forall i :: 0 <= i < |tail| ==> tail[i] == blank[|parts[0]| + 1 + i];
        BlankPiece(parts[1..], k - 1, tail);
      }
    }
  }

  /** The text of the error line for `count` rejected lines. */
  function InvalidFormatMessage(count: nat): (m: string)
    ensures |m| > |InvalidPrefix| + |InvalidSuffix|
    ensures m[..|InvalidPrefix|] == InvalidPrefix && m[|m| - |InvalidSuffix|..] == InvalidSuffix
  {
    InvalidPrefix + DecimalString(count) + InvalidSuffix
  }

  /** The rejected-line count can be read back from the error line. */
  lemma MessageCarriesCount(count: nat)
    ensures var m := InvalidFormatMessage(count);
            var digits := m[|InvalidPrefix|..|m| - |InvalidSuffix|];
            (forall i :: 0 <= i < |digits| ==> IsDigit(digits[i])) && DecimalValue(digits) == count
  {
    var m := InvalidFormatMessage(count);
    assert m[|InvalidPrefix|..|m| - |InvalidSuffix|] == DecimalString(count);
    DecimalRoundTrip(count);
  }

  /** The state of the input card of the financial-crime panel. */
  class AnalyzerPanel {
    var apiInput: string
    var inputError: Option<string>
    var isAnalyzing: bool

    constructor ()
      ensures apiInput == "" && inputError == None && !isAnalyzing
    {
      apiInput := "";
      inputError := None;
      isAnalyzing := false;
    }

    /** The text area's `onChange`: store the text and clear any error. */
    method Edit(value: string)
      modifies this
      ensures apiInput == value && inputError == None && isAnalyzing == old(isAnalyzing)
    {
      apiInput := value;
      if inputError.Some? {
        inputError := None;
      }
    }

    /** `handleAnalyze`: report an empty input or the rejected-line count, or
        clear the error and start analysing. */
    method Analyze()
      modifies this
      ensures apiInput == old(apiInput)
      ensures Validate(apiInput) == EmptyInput ==>
                inputError == Some(EmptyInputMessage) && isAnalyzing == old(isAnalyzing)
      ensures Validate(apiInput).InvalidLines? ==>
                inputError == Some(InvalidFormatMessage(Validate(apiInput).count)) && isAnalyzing == old(isAnalyzing)
      ensures Validate(apiInput) == Accepted ==> inputError == None && isAnalyzing
    {
      if Trim(apiInput) == [] {
        inputError := Some(EmptyInputMessage);
        return;
      }
      var lines := Lines(apiInput);
      var invalid := Filter(lines, IsRejected);
      if |invalid| > 0 {
        inputError := Some(InvalidFormatMessage(|invalid|));
        return;
      }
      inputError := None;
      isAnalyzing := true;
    }

    /** The timer that ends the simulated analysis. */
    method FinishAnalysis()
      modifies this
      ensures !isAnalyzing && apiInput == old(apiInput) && inputError == old(inputError)
    {
      isAnalyzing := false;
    }
  }
}
