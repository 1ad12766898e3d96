/** The script's pre-filter before `assemble`: lines are stripped, comment
    lines and blank lines dropped. It works line by line, so it distributes
    over concatenation, is idempotent, and the lines it drops never affect
    the image. */
module PrefilterLaws {
  import opened PyText
  import opened Assembler

  /** The first pass: `line.strip()` of every line read. */
  function StripLines(raw: seq<string>): (lines: seq<string>)
    ensures |lines| == |raw|
    ensures forall j :: 0 <= j < |raw| ==> lines[j] == Strip(raw[j])
  {
    seq(|raw|, j requires 0 <= j < |raw| => Strip(raw[j]))
  }

  /** The second pass: lines that start with ';' are dropped. */
  function DropComments(lines: seq<string>): (r: seq<string>)
    ensures forall j :: 0 <= j < |r| ==> !(|r[j]| > 0 && r[j][0] == ';')
  {
    if |lines| == 0 then []
    else if |lines[0]| > 0 && lines[0][0] == ';' then DropComments(lines[1..])
    else [lines[0]] + DropComments(lines[1..])
  }

  /** The third pass: empty lines are dropped. */
  function DropEmpty(lines: seq<string>): (r: seq<string>)
    ensures forall j :: 0 <= j < |r| ==> |r[j]| > 0
  {
    if |lines| == 0 then []
    else if |lines[0]| == 0 then DropEmpty(lines[1..])
    else [lines[0]] + DropEmpty(lines[1..])
  }

  /** A line the pre-filter throws away: blank, or a comment once stripped. */
  predicate Noise(line: string) {
    var s := Strip(line);
    |s| == 0 || s[0] == ';'
  }

  /** The one-pass `Prefilter` is the script's three passes in a row. */
  lemma {:induction false} PrefilterStages(raw: seq<string>)
    ensures Prefilter(raw) == DropEmpty(DropComments(StripLines(raw)))
  {
    if |raw| > 0 {
      PrefilterStages(raw[1..]);
      assert StripLines(raw) == [Strip(raw[0])] + StripLines(raw[1..]);
    }
  }

  /** Filtering a concatenation filters each half. */
  lemma {:induction false} PrefilterAppend(a: seq<string>, b: seq<string>)
    ensures Prefilter(a + b) == Prefilter(a) + Prefilter(b)
  {
    if |a| == 0 {
      assert a + b == b;
    } else {
      var line := Strip(a[0]);
      var head := if |line| > 0 && line[0] != ';' then [line] else [];
      assert (a + b)[0] == a[0];
      assert (a + b)[1..] == a[1..] + b;
      PrefilterAppend(a[1..], b);
      calc {
        Prefilter(a + b);
        head + Prefilter(a[1..] + b);
        head + (Prefilter(a[1..]) + Prefilter(b));
        { SeqAssoc(head, Prefilter(a[1..]), Prefilter(b)); }
        (head + Prefilter(a[1..])) + Prefilter(b);
        Prefilter(a) + Prefilter(b);
      }
    }
  }

  lemma SeqAssoc<T>(x: seq<T>, y: seq<T>, z: seq<T>)
    ensures x + (y + z) == (x + y) + z
  {
  }

  /** A single line survives, stripped, exactly when it is not noise. */
  lemma PrefilterLine(line: string)
    ensures Noise(line) ==> Prefilter([line]) == []
    ensures !Noise(line) ==> Prefilter([line]) == [Strip(line)]
  {
    assert [line][1..] == [];
  }

  /** Filtering what is already filtered changes nothing. */
  lemma {:induction false} PrefilterIdempotent(raw: seq<string>)
    ensures Prefilter(Prefilter(raw)) == Prefilter(raw)
  {
    if |raw| > 0 {
      var line := Strip(raw[0]);
      var head := if |line| > 0 && line[0] != ';' then [line] else [];
      assert raw == [raw[0]] + raw[1..];
      PrefilterAppend([raw[0]], raw[1..]);
      PrefilterLine(raw[0]);
      assert Prefilter(raw) == head + Prefilter(raw[1..]);
      PrefilterAppend(head, Prefilter(raw[1..]));
      if |head| > 0 {
        StripIdempotent(raw[0]);
        PrefilterLine(line);
      }
      PrefilterIdempotent(raw[1..]);
    }
  }

  /** Source files that are already clean pass through unchanged. */
  lemma {:induction false} PrefilterKeepsClean(raw: seq<string>)
    requires forall j :: 0 <= j < |raw| ==> !Noise(raw[j]) && Strip(raw[j]) == raw[j]
    ensures Prefilter(raw) == raw
  {
    if |raw| > 0 {
      assert raw == [raw[0]] + raw[1..];
      PrefilterKeepsClean(raw[1..]);
    }
  }

  /** A blank line or a comment line anywhere in a source file does not
      change the assembled image, or the error. */
  lemma NoiseLineIgnored(before: seq<string>, line: string, after: seq<string>)
    requires Noise(line)
    ensures AssembleFile(before + [line] + after) == AssembleFile(before + after)
  {
    PrefilterAppend(before + [line], after);
    PrefilterAppend(before, [line]);
    PrefilterAppend(before, after);
    PrefilterLine(line);
    assert Prefilter(before) + [] == Prefilter(before);
  }
}
