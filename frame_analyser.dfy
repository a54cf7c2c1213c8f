/**
 * The decisions FrameAnalyser makes around the face detector: which enrolled
 * person a detected face is labelled with, and which rotation constant the
 * detector's image metadata carries.
 */
module FrameAnalyser {
  import opened Wrappers

  /**
   * One entry of faceList, in the map's iteration order, with the similarity
   * of its embedding to the face in the frame. The similarity itself comes
   * from cosineSimilarity, which is not part of this model.
   */
  datatype Candidate = Candidate(name: string, score: real)

  /** The score the search starts from: `highestSimilarityScore = -1f`. */
  const StartScore: real := -1.0

  /** Name of the best match when no entry scores above StartScore. */
  const NoName: string := ""

  /** Entry w is the winner: above StartScore, maximal, and strictly above every entry before it. */
  ghost predicate FirstBest(faces: seq<Candidate>, w: int)
  {
    && 0 <= w < |faces|
    && faces[w].score > StartScore
    && (forall k :: 0 <= k < |faces| ==> faces[k].score <= faces[w].score)
    && (forall k :: 0 <= k < w ==> faces[k].score < faces[w].score)
  }

  /** No entry beats the starting score. */
  ghost predicate NoneAbove(faces: seq<Candidate>)
  {
    forall k :: 0 <= k < |faces| ==> faces[k].score <= StartScore
  }

  /**
   * The answer of the search: the winner's name and score or, when there is
   * no winner, the starting name and score.
   */
  ghost predicate IsBestMatch(faces: seq<Candidate>, name: string, score: real)
  {
    || (NoneAbove(faces) && name == NoName && score == StartScore)
    || (exists w :: FirstBest(faces, w) && name == faces[w].name && score == faces[w].score)
  }

  /**
   * The best-match loop of analyze: keeps the name of the first entry whose
   * score is strictly higher than everything seen so far.
   */
  method BestMatch(faces: seq<Candidate>) returns (name: string, score: real)
    ensures IsBestMatch(faces, name, score)
    ensures score >= StartScore
    ensures forall k :: 0 <= k < |faces| ==> faces[k].score <= score
    ensures name == NoName || exists k :: 0 <= k < |faces| && faces[k].name == name
  {
    score := StartScore;
    name := NoName;
    ghost var w := -1;
    for i := 0 to |faces|
      invariant score >= StartScore
      invariant forall k :: 0 <= k < i ==> faces[k].score <= score
      invariant w == -1 ==> name == NoName && score == StartScore
      invariant w != -1 ==> 0 <= w < i && name == faces[w].name && score == faces[w].score && score > StartScore
      invariant w != -1 ==> forall k :: 0 <= k < w ==> faces[k].score < score
    {
      var p := faces[i].score;
      if p > score {
        score := p;
        name := faces[i].name;
        w := i;
      }
    }
    if w != -1 {
      assert FirstBest(faces, w);
    }
  }

  /** The winner, when there is one, is a single entry. */
  lemma FirstBestUnique(faces: seq<Candidate>, w1: int, w2: int)
    requires FirstBest(faces, w1) && FirstBest(faces, w2)
    ensures w1 == w2
  {
    assert faces[w1].score <= faces[w2].score && faces[w2].score <= faces[w1].score;
  }

  /** The answer is determined by the list: any two answers agree. */
  lemma BestMatchUnique(faces: seq<Candidate>, name1: string, score1: real, name2: string, score2: real)
    requires IsBestMatch(faces, name1, score1) && IsBestMatch(faces, name2, score2)
    ensures name1 == name2 && score1 == score2
  {
    forall w1, w2 | FirstBest(faces, w1) && FirstBest(faces, w2)
      ensures w1 == w2
    {
      FirstBestUnique(faces, w1, w2);
    }
  }

  /**
   * Ties keep the first: an entry that reaches the best score above the
   * start, with every earlier entry strictly below it, is the one named.
   */
  lemma TiesKeepFirst(faces: seq<Candidate>, name: string, score: real, i: nat)
    requires IsBestMatch(faces, name, score)
    requires i < |faces| && faces[i].score == score > StartScore
    requires forall k :: 0 <= k < i ==> faces[k].score < score
    ensures name == faces[i].name
  {
    assert !NoneAbove(faces) by {
      assert faces[i].score > StartScore;
    }
    var w :| FirstBest(faces, w) && name == faces[w].name && score == faces[w].score;
    assert FirstBest(faces, i);
    FirstBestUnique(faces, w, i);
  }

  /** With an empty list, or no score above -1, the label is "" and the score -1. */
  lemma NoneAboveGivesStart(faces: seq<Candidate>, name: string, score: real)
    requires IsBestMatch(faces, name, score)
    requires NoneAbove(faces)
    ensures name == NoName && score == StartScore
  {
  }

  /** FirebaseVisionImageMetadata.ROTATION_0 .. ROTATION_270: quarter turns clockwise. */
  const ROTATION_0: int := 0
  const ROTATION_90: int := 1
  const ROTATION_180: int := 2
  const ROTATION_270: int := 3

  /** The message degreesToFirebaseRotation throws with. */
  const RotationError: string := "Rotation must be 0, 90, 180, or 270."

  /**
   * degreesToFirebaseRotation: defined on the four right angles, where it
   * gives the number of quarter turns; throws for anything else.
   */
  function DegreesToFirebaseRotation(degrees: int): (r: Result<int, string>)
    ensures r.Success? <==> degrees in {0, 90, 180, 270}
    ensures r.Success? ==> 90 * r.value == degrees && 0 <= r.value < 4
    ensures r.Failure? ==> r.error == RotationError
  {
    match degrees
    case 0 => Success(ROTATION_0)
    case 90 => Success(ROTATION_90)
    case 180 => Success(ROTATION_180)
    case 270 => Success(ROTATION_270)
    case _ => Failure(RotationError)
  }

  /** Different accepted angles give different constants. */
  lemma RotationsDistinct(d1: int, d2: int)
    requires DegreesToFirebaseRotation(d1).Success? && DegreesToFirebaseRotation(d2).Success?
    requires DegreesToFirebaseRotation(d1).value == DegreesToFirebaseRotation(d2).value
    ensures d1 == d2
  {
  }

  /** The analyser's metadata asks for 90 degrees, which is accepted. */
  lemma MetadataRotation()
    ensures DegreesToFirebaseRotation(90) == Success(ROTATION_90)
  {
  }
}
