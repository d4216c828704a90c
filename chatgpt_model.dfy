/**
 * The answer clean-up of the ChatGPT baseline submission: newlines become
 * spaces and every run of spaces becomes one space. Unlike the scorer's
 * normaliser it does not trim the ends.
 */
module ChatGptModel {
  import opened Text

  /**
   * `post_process`: no newline and no two spaces in a row are left, the
   * characters other than spaces and newlines are kept in their order, and
   * the answer never grows.
   */
  function PostProcess(answer: string): (r: string)
    ensures '\n' !in r
    ensures !Occurs(r, "  ")
    ensures Filter(r, IsVisible) == Filter(answer, IsVisible)
    ensures |r| <= |answer|
  {
    var spaced := NewlinesToSpaces(answer);
    NoNewlineAfterNewlinesToSpaces(answer);
    assert '\n' !in Squeeze(spaced) by {
      if '\n' in Squeeze(spaced) {
        SqueezeKeepsChars(spaced, '\n');
      }
    }
    SqueezeNoDoubleSpace(spaced);
    NewlinesToSpacesFilter(answer, IsVisible);
    SqueezeFilter(spaced, IsVisible);
    Squeeze(spaced)
  }

  /** Cleaning a cleaned answer again changes nothing. */
  lemma PostProcessIdempotent(answer: string)
    ensures PostProcess(PostProcess(answer)) == PostProcess(answer)
  {
    var r := PostProcess(answer);
    NewlinesToSpacesWithoutNewline(r);
    SqueezeFixedPoint(r);
  }

  /**
   * The ends are not trimmed: an answer that starts with a space or a
   * newline still starts with a space afterwards.
   */
  lemma PostProcessKeepsLeadingBlank(answer: string)
    requires |answer| > 0 && (answer[0] == ' ' || answer[0] == '\n')
    ensures |PostProcess(answer)| > 0 && PostProcess(answer)[0] == ' '
  {
    assert NewlinesToSpaces(answer)[0] == ' ';
  }

  /**
   * A gap of spaces and newlines between two pieces becomes exactly one
   * space, and each piece is cleaned on its own.
   */
  lemma PostProcessOfSeparated(x: string, b: string, y: string)
    requires |x| == 0 || IsVisible(x[|x| - 1])
    requires |b| > 0 && forall k | 0 <= k < |b| :: b[k] == ' ' || b[k] == '\n'
    requires |y| == 0 || IsVisible(y[0])
    ensures PostProcess(x + b + y) == PostProcess(x) + " " + PostProcess(y)
  {
    NewlinesToSpacesConcat(x + b, y);
    NewlinesToSpacesConcat(x, b);
    SqueezeRun(NewlinesToSpaces(x), NewlinesToSpaces(b), NewlinesToSpaces(y));
  }

  /** An answer with no newline and no doubled space is already clean. */
  lemma PostProcessOfClean(answer: string)
    requires '\n' !in answer && !Occurs(answer, "  ")
    ensures PostProcess(answer) == answer
  {
    NewlinesToSpacesWithoutNewline(answer);
    SqueezeFixedPoint(answer);
  }
}
