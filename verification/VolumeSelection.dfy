/** Finding the volume with a given label below a controller: the filesystem handles whose
    device path lies strictly below the controller's, and the only one among them whose
    label matches. */
module VolumeSelection {
  import opened Uefi
  import opened Bytes
  import opened Units
  import opened DevicePaths
  import opened Names
  import opened Volumes
  import opened Directories

  const MAX_HANDLES: nat := 256
  const MAX_VOLUMES: nat := 32

  // A handle's device path as the streaming reader returned it.
  type PathAnswer = Result<seq<byte>, Status>

  // A handle without a device path is passed over; any other failure ends the search.
  predicate Tolerated(answer: PathAnswer) {
    answer.Ok? || answer.error == Unsupported || answer.error == NotFound
  }

  // The paths below the controller, in handle order.
  ghost function PathsBelow(parent: seq<byte>, answers: seq<PathAnswer>): seq<seq<byte>> {
    if |answers| == 0 then []
    else
      var last := answers[|answers| - 1];
      PathsBelow(parent, answers[..|answers| - 1])
      + if last.Ok? && Below(parent, last.value) then [last.value] else []
  }

  ghost predicate AllDifferent(paths: seq<seq<byte>>) {
    forall i, j :: 0 <= i < j < |paths| ==> paths[i] != paths[j]
  }

  lemma PathsBelowGrow(parent: seq<byte>, answers: seq<PathAnswer>, k: nat)
    requires k < |answers|
    ensures PathsBelow(parent, answers[..k + 1])
         == PathsBelow(parent, answers[..k])
            + if answers[k].Ok? && Below(parent, answers[k].value) then [answers[k].value] else []
  {
    assert answers[..k + 1][..k] == answers[..k];
  }

  lemma {:induction false} PathsBelowPrefix(parent: seq<byte>, answers: seq<PathAnswer>, k: nat)
    requires k <= |answers|
    ensures PathsBelow(parent, answers[..k]) <= PathsBelow(parent, answers)
    decreases |answers|
  {
    if k == |answers| {
      assert answers[..k] == answers;
    } else {
      var n := |answers| - 1;
      assert answers[..n][..k] == answers[..k];
      PathsBelowPrefix(parent, answers[..n], k);
    }
  }

  // The paths of a list are exactly those that lie below the controller.
  lemma {:induction false} PathsBelowMembers(parent: seq<byte>, answers: seq<PathAnswer>, path: seq<byte>)
    ensures path in PathsBelow(parent, answers) <==> Ok(path) in answers && Below(parent, path)
  {
    if |answers| > 0 {
      var n := |answers| - 1;
      PathsBelowMembers(parent, answers[..n], path);
      assert answers == answers[..n] + [answers[n]];
    }
  }

  // They come in the order of the handles: each follows those of the handles before it.
  lemma PathsBelowInOrder(parent: seq<byte>, answers: seq<PathAnswer>, k: nat)
    requires k < |answers| && answers[k].Ok? && Below(parent, answers[k].value)
    ensures PathsBelow(parent, answers[..k]) + [answers[k].value] <= PathsBelow(parent, answers)
  {
    PathsBelowGrow(parent, answers, k);
    PathsBelowPrefix(parent, answers, k + 1);
  }

  // Finds all candidates, or fails: on too many handles or volumes, two handles with one
  // path, any other firmware error, or when there is no candidate.
  method Candidates(controller: PathAnswer, answers: seq<PathAnswer>) returns (r: Result<seq<seq<byte>>, Status>)
    requires controller.Ok? ==> IsPath(controller.value)
    requires forall i :: 0 <= i < |answers| && answers[i].Ok? ==> IsPath(answers[i].value)
    ensures r.Ok? <==>
      && controller.Ok? && |answers| <= 256
      && (forall i :: 0 <= i < |answers| ==> Tolerated(answers[i]))
      && 0 < |PathsBelow(controller.value, answers)| <= 32
      && AllDifferent(PathsBelow(controller.value, answers))
    ensures r.Ok? ==> r.value == PathsBelow(controller.value, answers)
    ensures controller.Err? ==> r == Err(controller.error)
    ensures controller.Ok? && |answers| > 256 ==> r == Err(BadBufferSize)
    ensures controller.Ok? && |answers| <= 256 && (forall i :: 0 <= i < |answers| ==> Tolerated(answers[i])) ==>
      var below := PathsBelow(controller.value, answers);
      && (|below| == 0 ==> r == Err(NotFound))
      && (|below| > 32 && AllDifferent(below) ==> r == Err(BadBufferSize))
      && (|below| <= 32 && !AllDifferent(below) ==> r == Err(NoMapping))
  {
    hide IsPath, Below;
    if controller.Err? {
      return Err(controller.error);
    }
    var parent := controller.value;
    if |answers| > MAX_HANDLES {
      return Err(BadBufferSize);
    }
    var candidates: seq<seq<byte>> := [];
    for k := 0 to |answers|
      invariant candidates == PathsBelow(parent, answers[..k])
      invariant forall i :: 0 <= i < k ==> Tolerated(answers[i])
      invariant |candidates| <= MAX_VOLUMES && AllDifferent(candidates)
    {
      PathsBelowGrow(parent, answers, k);
      PathsBelowPrefix(parent, answers, k + 1);
      if answers[k] == Err(Unsupported) || answers[k] == Err(NotFound) {
        continue;
      }
      if answers[k].Err? {
        return Err(answers[k].error);
      }
      var path := answers[k].value;
      var below := Descendant(parent, path);
      if below.Err? {
        return Err(VolumeCorrupted);
      }
      if !below.value {
        continue;
      }
      if |candidates| == MAX_VOLUMES {
        return Err(BadBufferSize);
      }
      if exists i :: 0 <= i < |candidates| && candidates[i] == path {
        Repeats(PathsBelow(parent, answers), candidates, path);
        return Err(NoMapping);
      }
      candidates := candidates + [path];
    }
    assert answers[..|answers|] == answers;
    if |candidates| == 0 {
      return Err(NotFound);
    }
    r := Ok(candidates);
  }

  lemma Repeats(all: seq<seq<byte>>, first: seq<seq<byte>>, path: seq<byte>)
    requires first + [path] <= all && path in first
    ensures !AllDifferent(all)
  {
    var i :| 0 <= i < |first| && first[i] == path;
    assert all[i] == (first + [path])[i] == (first + [path])[|first|] == all[|first|];
  }

  // ----- the label

  // A candidate and the firmware's answers about it.
  datatype Candidate = Candidate(path: seq<byte>, directory: Directory)

  ghost predicate Labelled(c: Candidate, units: seq<unit>) {
    exists v :: IsVolume(c.directory.info.data, v) && v.labelUnits == units
  }

  // The candidates with the wanted label, by index.
  ghost function Matches(candidates: seq<Candidate>, wanted: seq<unit>): seq<nat> {
    if |candidates| == 0 then []
    else
      var n := |candidates| - 1;
      Matches(candidates[..n], wanted) + if Labelled(candidates[n], wanted) then [n] else []
  }

  lemma {:induction false} MatchesAre(candidates: seq<Candidate>, wanted: seq<unit>)
    ensures forall i :: i in Matches(candidates, wanted) <==> 0 <= i < |candidates| && Labelled(candidates[i], wanted)
    ensures forall i, j :: 0 <= i < j < |Matches(candidates, wanted)| ==>
      Matches(candidates, wanted)[i] < Matches(candidates, wanted)[j]
  {
    hide Labelled;
    if |candidates| > 0 {
      var n := |candidates| - 1;
      MatchesAre(candidates[..n], wanted);
      assert forall i :: 0 <= i < n ==> candidates[..n][i] == candidates[i];
      var before := Matches(candidates[..n], wanted);
      forall i | 0 <= i < |before| ensures before[i] < n {
        assert before[i] in before;
      }
    }
  }

  lemma MatchesGrow(candidates: seq<Candidate>, wanted: seq<unit>, k: nat)
    requires k < |candidates|
    ensures Matches(candidates[..k + 1], wanted)
         == Matches(candidates[..k], wanted) + if Labelled(candidates[k], wanted) then [k] else []
  {
    assert candidates[..k + 1][..k] == candidates[..k];
  }

  // Exactly one candidate has the label, and it is the i-th.
  ghost predicate OnlyMatch(candidates: seq<Candidate>, wanted: seq<unit>, i: nat) {
    && i < |candidates| && Labelled(candidates[i], wanted)
    && forall j :: 0 <= j < |candidates| && Labelled(candidates[j], wanted) ==> j == i
  }

  ghost predicate TwoMatch(candidates: seq<Candidate>, wanted: seq<unit>) {
    exists i, j :: 0 <= i < j < |candidates| && Labelled(candidates[i], wanted) && Labelled(candidates[j], wanted)
  }

  // How many matches there are tells these cases apart.
  lemma MatchesCount(candidates: seq<Candidate>, wanted: seq<unit>)
    ensures var matches := Matches(candidates, wanted);
      && (|matches| == 0 <==> forall i :: 0 <= i < |candidates| ==> !Labelled(candidates[i], wanted))
      && (|matches| == 1 ==> OnlyMatch(candidates, wanted, matches[0]))
      && (|matches| > 1 <==> TwoMatch(candidates, wanted))
  {
    hide Labelled, Matches;
    var matches := Matches(candidates, wanted);
    MatchesAre(candidates, wanted);
    if |matches| > 0 {
      assert matches[0] in matches;
    }
    if |matches| > 1 {
      assert matches[1] in matches && matches[0] < matches[1];
    }
    if i, j :| 0 <= i < j < |candidates| && Labelled(candidates[i], wanted) && Labelled(candidates[j], wanted) {
      assert i in matches && j in matches;
    }
  }

  // The information answers of the candidates.
  function InfoSizes(candidates: seq<Candidate>): seq<nat> {
    if |candidates| == 0 then []
    else
      var n := |candidates| - 1;
      InfoSizes(candidates[..n]) + [|candidates[n].directory.info.data|]
  }

  // Candidate i can be observed after the ones before it.
  ghost predicate ObservedAfter(candidates: seq<Candidate>, spent: nat, i: nat) {
    i < |candidates| && Informs(candidates[i].directory, spent + Sum(InfoSizes(candidates[..i])))
  }

  ghost predicate AllInform(candidates: seq<Candidate>, spent: nat) {
    forall i: nat :: i < |candidates| ==> ObservedAfter(candidates, spent, i)
  }

  // With an acceptable label the outcome is decided: when every candidate can be observed,
  // a path is selected if exactly one of them has the label, and no match and several are
  // told apart; otherwise the selection fails.
  method Select(wanted: seq<unit>, candidates: seq<Candidate>, budget: Budget) returns (r: Result<seq<byte>, Status>)
    requires budget.Valid()
    modifies budget
    ensures budget.Valid()
    ensures !(1 <= |wanted| <= 255) ==> r == Err(InvalidParameter)
    ensures 1 <= |wanted| <= 255 && AllInform(candidates, old(budget.bytes)) ==>
      && (forall p :: r == Ok(p) <==> exists i: nat :: OnlyMatch(candidates, wanted, i) && p == candidates[i].path)
      && (r == Err(NotFound) <==> forall i :: 0 <= i < |candidates| ==> !Labelled(candidates[i], wanted))
      && (r == Err(NoMapping) <==> TwoMatch(candidates, wanted))
    ensures !AllInform(candidates, old(budget.bytes)) ==> r.Err?
  {
    hide IsVolume, Labelled, Matches, IsEntry, Spent, Budget.Valid, Volume.Valid, Sum, InfoSizes, Informs, ObservedTo;
    if |wanted| == 0 || |wanted| > MAX_NAME {
      return Err(InvalidParameter);
    }
    var selected: Option<seq<byte>> := None;
    var matches := 0;
    ghost var spent := budget.bytes;
    NoMatches(wanted);
    for k := 0 to |candidates|
      invariant budget.Valid() && budget.bytes == spent + Sum(InfoSizes(candidates[..k]))
      invariant forall i: nat :: i < k ==> ObservedAfter(candidates, spent, i)
      invariant matches == |Matches(candidates[..k], wanted)|
      invariant selected.Some? == (matches > 0)
      invariant matches > 0 ==>
        var first := Matches(candidates[..k], wanted)[0];
        first < k && selected.value == candidates[first].path
    {
      MatchesGrow(candidates, wanted, k);
      InfoSizesGrow(candidates, k);
      var volume := new Volume();
      var observed := volume.Observe(candidates[k].directory, budget, false);
      if observed.Err? {
        assert !ObservedAfter(candidates, spent, k);
        return Err(observed.error);
      }
      LabelIsUnique(candidates[k], volume.info.value, wanted);
      if volume.info.value.labelUnits == wanted {
        matches := matches + 1;
        if selected.None? {
          selected := Some(candidates[k].path);
        }
      }
    }
    assert candidates[..|candidates|] == candidates;
    MatchesCount(candidates, wanted);
    r := if matches == 0 then Err(NotFound) else if matches == 1 then Ok(selected.value) else Err(NoMapping);
  }

  lemma NoMatches(wanted: seq<unit>)
    ensures Matches([], wanted) == [] && Sum(InfoSizes([])) == 0
  {
  }

  lemma InfoSizesGrow(candidates: seq<Candidate>, k: nat)
    requires k < |candidates|
    ensures Sum(InfoSizes(candidates[..k + 1])) == Sum(InfoSizes(candidates[..k])) + |candidates[k].directory.info.data|
  {
    assert candidates[..k + 1][..k] == candidates[..k];
    var sizes := InfoSizes(candidates[..k + 1]);
    assert sizes[..|sizes| - 1] == InfoSizes(candidates[..k]);
  }

  lemma LabelIsUnique(c: Candidate, v: VolumeInfo, wanted: seq<unit>)
    requires IsVolume(c.directory.info.data, v)
    ensures Labelled(c, wanted) <==> v.labelUnits == wanted
  {
  }

  // On a fresh budget, and with no more candidates than there can be, the budget plays no
  // part: every candidate can be observed exactly when the firmware answered each time with
  // proper volume information.
  lemma FreshBudgetSuffices(candidates: seq<Candidate>)
    requires |candidates| <= 32
    ensures AllInform(candidates, 0) <==>
      forall i: nat :: i < |candidates| ==> Answered(candidates[i])
  {
    hide Informs, Answered, InfoSizes, Sum;
    if forall i: nat :: i < |candidates| ==> Answered(candidates[i]) {
      forall i: nat | i < |candidates| ensures ObservedAfter(candidates, 0, i) {
        FewBytes(candidates, i);
        AnsweredInforms(candidates[i], Sum(InfoSizes(candidates[..i])));
      }
    }
    if AllInform(candidates, 0) {
      forall i: nat | i < |candidates| ensures Answered(candidates[i]) {
        assert ObservedAfter(candidates, 0, i);
        AnsweredInforms(candidates[i], Sum(InfoSizes(candidates[..i])));
      }
    }
  }

  ghost predicate Answered(c: Candidate) {
    c.directory.info.failure.None? && IsInformation(c.directory.info.data)
  }

  lemma AnsweredInforms(c: Candidate, spent: nat)
    ensures Informs(c.directory, spent) ==> Answered(c)
    ensures Answered(c) && spent <= MAX_METADATA - MAX_RECORD ==> Informs(c.directory, spent)
    ensures Answered(c) ==> |c.directory.info.data| <= MAX_RECORD
  {
  }

  lemma {:induction false} FewBytes(candidates: seq<Candidate>, n: nat)
    requires n <= |candidates| && forall i: nat :: i < n ==> Answered(candidates[i])
    ensures Sum(InfoSizes(candidates[..n])) <= n * MAX_RECORD
  {
    hide Answered, InfoSizes, Sum;
    if n == 0 {
      assert candidates[..0] == [];
      NoMatches([]);
    } else {
      FewBytes(candidates, n - 1);
      InfoSizesGrow(candidates, n - 1);
      AnsweredInforms(candidates[n - 1], 0);
    }
  }
}
