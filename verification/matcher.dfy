/** The best-match scan of `verify`: a linear pass over the enrolled
    students that keeps the first student with the highest similarity score,
    starting from the sentinel score -1.0, followed by the threshold test. */
module Matcher {
  import opened Wrappers

  /** An identity vector: the float32 values decoded from a stored
      `face_encoding`. */
  type Vector = seq<real>

  /** Similarity of the probe with a stored vector (the source's
      `cosine_similarity`, a dot product of normalised vectors). Only the
      ordering of its values matters here, and it is only consulted on
      vectors of equal length (see `Aligned`). */
  type Similarity = (Vector, Vector) -> real

  /** A `Student` row; `faceEncoding` is `None` when the column is null. */
  datatype Student = Student(pk: int, studentId: string, fullName: string, faceEncoding: Option<Vector>)

  /** The score a scan starts from, and reports when nothing was selected. */
  const Sentinel: real := -1.0

  /** A student takes part in the scan when its encoding is not null (the
      queryset filter) and not of size zero (the `continue`). */
  predicate Eligible(s: Student) {
    s.faceEncoding.Some? && |s.faceEncoding.value| > 0
  }

  function Score(s: Student, probe: Vector, sim: Similarity): real
    requires Eligible(s)
  {
    sim(probe, s.faceEncoding.value)
  }

  /** The scan state: the index of the best student so far, if any, and its
      score (`best_student`, `best_score`). */
  datatype Match = Match(best: Option<nat>, score: real)

  /** One iteration of the loop body on candidate `i`: a strictly greater
      score replaces the current best. */
  function Step(m: Match, cands: seq<Student>, i: nat, probe: Vector, sim: Similarity): Match
    requires i < |cands|
  {
    if Eligible(cands[i]) && Score(cands[i], probe, sim) > m.score
    then Match(Some(i), Score(cands[i], probe, sim))
    else m
  }

  /** The scan state after the first `n` candidates. */
  function ScanUpTo(cands: seq<Student>, probe: Vector, sim: Similarity, n: nat): Match
    requires n <= |cands|
  {
    if n == 0 then Match(None, Sentinel)
    else Step(ScanUpTo(cands, probe, sim, n - 1), cands, n - 1, probe, sim)
  }

  /** The scan over all candidates. */
  function Scan(cands: seq<Student>, probe: Vector, sim: Similarity): Match {
    ScanUpTo(cands, probe, sim, |cands|)
  }

  /** Candidate `k` is the one the source promises to select: eligible, its
      score above the sentinel, no eligible candidate scores higher, and every
      eligible candidate before it scores strictly lower (the first of equal
      maxima wins). */
  predicate IsFirstBest(cands: seq<Student>, probe: Vector, sim: Similarity, k: nat) {
    && k < |cands|
    && Eligible(cands[k])
    && Score(cands[k], probe, sim) > Sentinel
    && (forall j :: 0 <= j < |cands| && Eligible(cands[j]) ==>
          Score(cands[j], probe, sim) <= Score(cands[k], probe, sim))
    && (forall j :: 0 <= j < k && Eligible(cands[j]) ==>
          Score(cands[j], probe, sim) < Score(cands[k], probe, sim))
  }

  /** No eligible candidate beats the sentinel, so nothing can be selected. */
  predicate NoneAboveSentinel(cands: seq<Student>, probe: Vector, sim: Similarity) {
    forall j :: 0 <= j < |cands| && Eligible(cands[j]) ==> Score(cands[j], probe, sim) <= Sentinel
  }

  /** What the scan state after `n` candidates means, for the prefix
      `cands[..n]`. */
  lemma {:induction false} ScanUpToMeaning(cands: seq<Student>, probe: Vector, sim: Similarity, n: nat)
    requires n <= |cands|
    ensures var m := ScanUpTo(cands, probe, sim, n);
      && m.score >= Sentinel
      && (forall j :: 0 <= j < n && Eligible(cands[j]) ==> Score(cands[j], probe, sim) <= m.score)
      && (m.best.None? ==> m.score == Sentinel)
      && (m.best.Some? ==>
            && m.best.value < n
            && Eligible(cands[m.best.value])
            && m.score == Score(cands[m.best.value], probe, sim)
            && m.score > Sentinel
            && (forall j :: 0 <= j < m.best.value && Eligible(cands[j]) ==> Score(cands[j], probe, sim) < m.score))
  {
    if n > 0 {
      ScanUpToMeaning(cands, probe, sim, n - 1);
    }
  }

  /** The scan selects exactly the first best candidate; when it selects
      nothing, no eligible candidate beats the sentinel and the reported score
      is the sentinel. */
  lemma ScanSelectsFirstBest(cands: seq<Student>, probe: Vector, sim: Similarity)
    ensures var m := Scan(cands, probe, sim);
      && (m.best.Some? ==> IsFirstBest(cands, probe, sim, m.best.value) && m.score == Score(cands[m.best.value], probe, sim))
      && (m.best.None? <==> NoneAboveSentinel(cands, probe, sim))
      && (m.best.None? ==> m.score == Sentinel)
  {
    ScanUpToMeaning(cands, probe, sim, |cands|);
  }

  /** The first best candidate, when there is one, is unique. */
  lemma FirstBestUnique(cands: seq<Student>, probe: Vector, sim: Similarity, k1: nat, k2: nat)
    requires IsFirstBest(cands, probe, sim, k1) && IsFirstBest(cands, probe, sim, k2)
    ensures k1 == k2
  {
  }

  /** Skipped candidates are never selected: one with a null or empty
      encoding cannot be the scan's best. */
  lemma IneligibleNeverSelected(cands: seq<Student>, probe: Vector, sim: Similarity, i: nat)
    requires i < |cands| && !Eligible(cands[i])
    ensures Scan(cands, probe, sim).best != Some(i)
  {
    ScanUpToMeaning(cands, probe, sim, |cands|);
  }

  /** With no eligible candidate at all, the scan reports no student and the
      sentinel score. */
  lemma NoCandidatesNoMatch(cands: seq<Student>, probe: Vector, sim: Similarity)
    requires forall i :: 0 <= i < |cands| ==> !Eligible(cands[i])
    ensures Scan(cands, probe, sim) == Match(None, Sentinel)
  {
    ScanUpToMeaning(cands, probe, sim, |cands|);
  }

  /** `np.dot(probe, known)` raises `ValueError` on vectors of different
      lengths. The loop has no `break`, so it reaches every eligible
      candidate: it runs to the end exactly when every eligible encoding has
      the probe's length. */
  predicate Aligned(cands: seq<Student>, probe: Vector) {
    forall i :: 0 <= i < |cands| && Eligible(cands[i]) ==> |cands[i].faceEncoding.value| == |probe|
  }

  /** The loop of `verify` over `Student.objects.exclude(face_encoding__isnull=True)`,
      in the queryset's iteration order. `raised` reports that a dot product
      raised, which ends the scan. */
  method BestMatch(cands: seq<Student>, probe: Vector, sim: Similarity)
    returns (best: Option<nat>, bestScore: real, raised: bool)
    ensures raised <==> !Aligned(cands, probe)
    ensures !raised ==> Match(best, bestScore) == Scan(cands, probe, sim)
  {
    best := None;
    bestScore := Sentinel;
    raised := false;
    for i := 0 to |cands|
      invariant Match(best, bestScore) == ScanUpTo(cands, probe, sim, i)
      invariant forall j :: 0 <= j < i && Eligible(cands[j]) ==> |cands[j].faceEncoding.value| == |probe|
    {
      var student := cands[i];
      if student.faceEncoding.None? {
        continue;
      }
      var known := student.faceEncoding.value;
      if |known| == 0 {
        continue;
      }
      if |known| != |probe| {
        raised := true;
        return;
      }
      var score := sim(probe, known);
      if score > bestScore {
        bestScore := score;
        best := Some(i);
      }
    }
  }

  /** `best_student and best_score >= threshold`: a student was selected and
      the score reaches the threshold, equality included. */
  predicate Matched(m: Match, threshold: real) {
    m.best.Some? && m.score >= threshold
  }

  /** A match at a threshold also matches at every lower threshold, and a
      score exactly at the threshold matches. */
  lemma MatchedMonotone(m: Match, t1: real, t2: real)
    requires t2 <= t1 && Matched(m, t1)
    ensures Matched(m, t2) && Matched(m, m.score)
  {
  }

  /** Whatever the threshold, nothing matches when no candidate is eligible. */
  lemma EmptySetNeverMatches(cands: seq<Student>, probe: Vector, sim: Similarity, threshold: real)
    requires forall i :: 0 <= i < |cands| ==> !Eligible(cands[i])
    ensures !Matched(Scan(cands, probe, sim), threshold)
  {
    NoCandidatesNoMatch(cands, probe, sim);
  }

  /** The attendance status recorded for a match: `"IN"` when authorized,
      `"FORBIDDEN"` otherwise. */
  function AttendanceStatus(authorized: bool): (s: string)
    ensures s == "IN" <==> authorized
    ensures s == "FORBIDDEN" <==> !authorized
  {
    if authorized then "IN" else "FORBIDDEN"
  }
}
