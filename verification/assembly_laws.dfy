/** What `assemble` guarantees about the image as a whole: it succeeds
    exactly when every line does, the first failing line decides the error,
    and a successful image holds at each address the value of the last line
    aimed at it, 0 where no line is. */
module AssemblyLaws {
  import opened Assembler

  predicate AllOk(outcomes: seq<Result<Write>>) {
    forall j :: 0 <= j < |outcomes| ==> outcomes[j].Ok?
  }

  /** Reference reading of the image: scanning the outcomes from the last
      one back, the first write aimed at `a` gives its value; with none, `a`
      keeps what `image` held. */
  function Latest(image: Image, outcomes: seq<Result<Write>>, a: nat): int
    requires |image| == ImageSize && a < ImageSize
    requires AllOk(outcomes)
    decreases |outcomes|
  {
    if |outcomes| == 0 then image[a]
    else
      var w := outcomes[|outcomes| - 1].value;
      if w.index == a then w.value else Latest(image, outcomes[..|outcomes| - 1], a)
  }

  /** One more line after a prefix: the loop is a left fold. */
  lemma {:induction false} ApplySnoc(image: Image, os: seq<Result<Write>>, o: Result<Write>)
    requires |image| == ImageSize
    ensures ApplyLines(image, os + [o]) ==
      match ApplyLines(image, os)
      case Err(e) => Err(e)
      case Ok(m) =>
        match o
        case Err(e) => Err(e)
        case Ok(w) => Ok(m[w.index := w.value])
    decreases |os|
  {
    if |os| == 0 {
      assert os + [o] == [o];
    } else {
      assert (os + [o])[1..] == os[1..] + [o];
      match os[0]
      case Err(e) =>
      case Ok(w) =>
        ApplySnoc(image[w.index := w.value], os[1..], o);
    }
  }

  /** The loop succeeds exactly when every line does. */
  lemma {:induction false} ApplyOkIff(image: Image, os: seq<Result<Write>>)
    requires |image| == ImageSize
    ensures ApplyLines(image, os).Ok? <==> AllOk(os)
    decreases |os|
  {
    if |os| > 0 {
      match os[0]
      case Err(e) =>
      case Ok(w) =>
        ApplyOkIff(image[w.index := w.value], os[1..]);
        assert AllOk(os) <==> AllOk(os[1..]) by {
          if AllOk(os[1..]) {
            forall j | 0 <= j < |os| ensures os[j].Ok? {
              if j > 0 {
                assert os[j] == os[1..][j - 1];
              }
            }
          }
        }
    }
  }

  /** A failure reports the error of the first failing line. */
  lemma {:induction false} ApplyFirstError(image: Image, os: seq<Result<Write>>, k: nat)
    requires |image| == ImageSize
    requires k < |os|
    requires forall j :: 0 <= j < k ==> os[j].Ok?
    requires os[k].Err?
    ensures ApplyLines(image, os) == Err(os[k].error)
    decreases k
  {
    if k > 0 {
      var w := os[0].value;
      assert forall j :: 0 <= j < k - 1 ==> os[1..][j] == os[j + 1];
      assert os[1..][k - 1] == os[k];
      ApplyFirstError(image[w.index := w.value], os[1..], k - 1);
    }
  }

  /** Every slot of a successful loop holds the value `Latest` gives. */
  lemma {:induction false} ApplyContents(image: Image, os: seq<Result<Write>>)
    requires |image| == ImageSize
    requires AllOk(os)
    ensures ApplyLines(image, os).Ok?
    ensures forall a :: 0 <= a < ImageSize ==> ApplyLines(image, os).value[a] == Latest(image, os, a)
    decreases |os|
  {
    ApplyOkIff(image, os);
    if |os| > 0 {
      var init := os[..|os| - 1];
      var last := os[|os| - 1];
      assert os == init + [last];
      assert forall j :: 0 <= j < |init| ==> init[j] == os[j];
      ApplyContents(image, init);
      ApplySnoc(image, init, last);
    }
  }

  lemma {:induction false} LatestUntouched(image: Image, os: seq<Result<Write>>, a: nat)
    requires |image| == ImageSize && a < ImageSize
    requires AllOk(os)
    requires forall j :: 0 <= j < |os| ==> os[j].value.index != a
    ensures Latest(image, os, a) == image[a]
    decreases |os|
  {
    if |os| > 0 {
      var init := os[..|os| - 1];
      assert forall j :: 0 <= j < |init| ==> init[j] == os[j];
      LatestUntouched(image, init, a);
    }
  }

  lemma {:induction false} LatestLastWins(image: Image, os: seq<Result<Write>>, k: nat, a: nat)
    requires |image| == ImageSize && a < ImageSize
    requires AllOk(os)
    requires k < |os| && os[k].value.index == a
    requires forall j :: k < j < |os| ==> os[j].value.index != a
    ensures Latest(image, os, a) == os[k].value.value
    decreases |os|
  {
    if k < |os| - 1 {
      var init := os[..|os| - 1];
      assert forall j :: 0 <= j < |init| ==> init[j] == os[j];
      LatestLastWins(image, init, k, a);
    }
  }

  // -----------------------------------------------------------------------
  // The same facts stated on source lines
  // -----------------------------------------------------------------------

  predicate AllAssemble(lines: seq<string>) {
    forall j :: 0 <= j < |lines| ==> AssembleLine(lines[j]).Ok?
  }

  /** `assemble` succeeds exactly when every line assembles. */
  lemma AssembleOkIff(lines: seq<string>)
    ensures Assemble(lines).Ok? <==> AllAssemble(lines)
  {
    ApplyOkIff(Blank(), LineOutcomes(lines));
  }

  /** When line `k` is the first that fails, `assemble` raises its error
      and produces no image. */
  lemma AssembleFirstError(lines: seq<string>, k: nat)
    requires k < |lines|
    requires forall j :: 0 <= j < k ==> AssembleLine(lines[j]).Ok?
    requires AssembleLine(lines[k]).Err?
    ensures Assemble(lines) == Err(AssembleLine(lines[k]).error)
  {
    ApplyFirstError(Blank(), LineOutcomes(lines), k);
  }

  /** The outcomes of lines that all assemble are all writes. */
  lemma AllAssembleOutcomes(lines: seq<string>)
    requires AllAssemble(lines)
    ensures AllOk(LineOutcomes(lines))
  {
  }

  /** An address no line names stays 0. */
  lemma UntouchedStaysZero(lines: seq<string>, a: nat)
    requires AllAssemble(lines) && a < ImageSize
    requires forall j :: 0 <= j < |lines| ==> AssembleLine(lines[j]).value.index != a
    ensures Assemble(lines).Ok?
    ensures Assemble(lines).value[a] == 0
  {
    var os := LineOutcomes(lines);
    AllAssembleOutcomes(lines);
    ApplyContents(Blank(), os);
    LatestUntouched(Blank(), os, a);
  }

  /** The last line aimed at an address decides its value: earlier lines
      for the same address are overwritten. */
  lemma LastLineWins(lines: seq<string>, k: nat, a: nat)
    requires AllAssemble(lines) && a < ImageSize
    requires k < |lines| && AssembleLine(lines[k]).value.index == a
    requires forall j :: k < j < |lines| ==> AssembleLine(lines[j]).value.index != a
    ensures Assemble(lines).Ok?
    ensures Assemble(lines).value[a] == AssembleLine(lines[k]).value.value
  {
    var os := LineOutcomes(lines);
    AllAssembleOutcomes(lines);
    ApplyContents(Blank(), os);
    LatestLastWins(Blank(), os, k, a);
  }
}
