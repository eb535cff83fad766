/**
 * How `GeminiModel.extract_text_from_image` judges and cleans the service's
 * reply, and the text payload the page offers for download.
 */
module Normalizer {
  import opened Text

  /** A plate string as the client hands it out: non-empty, stripped, one line. */
  predicate IsPlate(p: string) {
    p != [] && IsStripped(p) && '\n' !in p
  }

  /** The reply is accepted: its stripped text is non-empty and holds a letter or digit. */
  predicate Accepts(reply: string) {
    var text := Strip(reply);
    text != [] && HasAlnum(text)
  }

  /** `[plate.strip() for plate in lines if plate.strip()]` */
  function CleanLines(lines: seq<string>): (r: seq<string>)
    ensures |r| <= |lines|
    ensures forall k :: 0 <= k < |r| ==> r[k] != [] && IsStripped(r[k])
  {
    if |lines| == 0 then []
    else
      var p := Strip(lines[0]);
      var rest := CleanLines(lines[1..]);
      if p != [] then [p] + rest else rest
  }

  /** The plates of an accepted reply: its stripped text split on line breaks, then cleaned. */
  function Plates(reply: string): (r: seq<string>)
    ensures forall k :: 0 <= k < |r| ==> IsPlate(r[k])
  {
    var lines := Split(Strip(reply));
    CleanLinesLineFree(lines);
    CleanLines(lines)
  }

  /** Cleaning line-free lines gives plates. */
  lemma {:induction false} CleanLinesLineFree(lines: seq<string>)
    requires forall i :: 0 <= i < |lines| ==> '\n' !in lines[i]
    ensures forall k :: 0 <= k < |CleanLines(lines)| ==> IsPlate(CleanLines(lines)[k])
  {
    if |lines| > 0 {
      CleanLinesLineFree(lines[1..]);
      StripChars(lines[0]);
    }
  }

  /** Cleaning keeps the order of the lines: it distributes over concatenation. */
  lemma {:induction false} CleanLinesAppend(a: seq<string>, b: seq<string>)
    ensures CleanLines(a + b) == CleanLines(a) + CleanLines(b)
  {
    if |a| == 0 {
      assert a + b == b;
    } else {
      assert (a + b)[1..] == a[1..] + b;
      CleanLinesAppend(a[1..], b);
    }
  }

  /** A value is a cleaned plate exactly when it is the non-empty strip of some line. */
  lemma {:induction false} CleanLinesMembers(lines: seq<string>, x: string)
    ensures x in CleanLines(lines) <==>
              x != [] && exists i :: 0 <= i < |lines| && Strip(lines[i]) == x
  {
    if |lines| > 0 {
      CleanLinesMembers(lines[1..], x);
      if x != [] && (exists i :: 0 <= i < |lines| && Strip(lines[i]) == x) {
        var i :| 0 <= i < |lines| && Strip(lines[i]) == x;
        if i > 0 {
          assert Strip(lines[1..][i - 1]) == x;
        }
      }
      if exists i :: 0 <= i < |lines[1..]| && Strip(lines[1..][i]) == x {
        var i :| 0 <= i < |lines[1..]| && Strip(lines[1..][i]) == x;
        assert Strip(lines[i + 1]) == x;
      }
    }
  }

  /** Lines that are already plates come through cleaning unchanged. */
  lemma {:induction false} CleanLinesOfPlates(plates: seq<string>)
    requires forall k :: 0 <= k < |plates| ==> IsPlate(plates[k])
    ensures CleanLines(plates) == plates
  {
    if |plates| > 0 {
      CleanLinesOfPlates(plates[1..]);
      assert [plates[0]] + plates[1..] == plates;
    }
  }

  /** Stripping never removes a letter or digit. */
  lemma StripKeepsAlnum(s: string)
    requires HasAlnum(s)
    ensures HasAlnum(Strip(s))
  {
    var j :| 0 <= j < |s| && IsAlnum(s[j]);
    StripChars(s);
    assert s[j] in s && !IsWhitespace(s[j]);
    var m :| 0 <= m < |Strip(s)| && Strip(s)[m] == s[j];
  }

  /** A line holding a letter or digit gives a plate holding one. */
  lemma {:induction false} CleanLinesKeepAlnum(lines: seq<string>, i: nat)
    requires i < |lines| && HasAlnum(lines[i])
    ensures exists k :: 0 <= k < |CleanLines(lines)| && HasAlnum(CleanLines(lines)[k])
  {
    var p := Strip(lines[0]);
    var rest := CleanLines(lines[1..]);
    var r := CleanLines(lines);
    if i == 0 {
      StripKeepsAlnum(lines[0]);
      assert r[0] == p;
    } else {
      assert lines[1..][i - 1] == lines[i];
      CleanLinesKeepAlnum(lines[1..], i - 1);
      var k :| 0 <= k < |rest| && HasAlnum(rest[k]);
      if p != [] {
        assert r[k + 1] == rest[k];
      } else {
        assert r[k] == rest[k];
      }
    }
  }

  /** A string holding a letter or digit has a piece holding one. */
  lemma {:induction false} SplitKeepsAlnum(s: string, j: nat)
    requires j < |s| && IsAlnum(s[j])
    ensures exists k :: 0 <= k < |Split(s)| && HasAlnum(Split(s)[k])
    decreases |s|
  {
    var r := Split(s);
    if '\n' !in s {
      assert r[0] == s;
    } else {
      var i := FirstBreak(s);
      var rest := Split(s[i + 1..]);
      assert r == [s[..i]] + rest;
      if j < i {
        assert r[0][j] == s[j];
      } else {
        assert j != i;
        assert s[i + 1..][j - i - 1] == s[j];
        SplitKeepsAlnum(s[i + 1..], j - i - 1);
        var k :| 0 <= k < |rest| && HasAlnum(rest[k]);
        assert r[k + 1] == rest[k];
      }
    }
  }

  /**
   * An accepted reply never yields an empty plate list, and some plate keeps a
   * letter or digit; so `return plates if plates else None` never returns None.
   */
  lemma AcceptedHasPlates(reply: string)
    requires Accepts(reply)
    ensures Plates(reply) != []
    ensures exists k :: 0 <= k < |Plates(reply)| && HasAlnum(Plates(reply)[k])
  {
    var text := Strip(reply);
    var j :| 0 <= j < |text| && IsAlnum(text[j]);
    SplitKeepsAlnum(text, j);
    var i :| 0 <= i < |Split(text)| && HasAlnum(Split(text)[i]);
    CleanLinesKeepAlnum(Split(text), i);
  }

  /** Normalizing the export payload of well-formed plates gives the same plates back. */
  lemma ExportRoundTrip(plates: seq<string>)
    requires forall k :: 0 <= k < |plates| ==> IsPlate(plates[k])
    ensures Plates(Join(plates)) == plates
  {
    var payload := Join(plates);
    JoinStripped(plates);
    assert Strip(payload) == payload;
    if |plates| == 0 {
      assert Split(payload) == [[]];
    } else {
      SplitJoin(plates);
      CleanLinesOfPlates(plates);
    }
  }

  /** The export payload is accepted again exactly when some plate holds a letter or digit. */
  lemma ExportAccepted(plates: seq<string>)
    requires forall k :: 0 <= k < |plates| ==> IsPlate(plates[k])
    ensures Accepts(Join(plates)) <==>
              exists k :: 0 <= k < |plates| && HasAlnum(plates[k])
  {
    var payload := Join(plates);
    JoinStripped(plates);
    if exists k :: 0 <= k < |plates| && HasAlnum(plates[k]) {
      var k :| 0 <= k < |plates| && HasAlnum(plates[k]);
      var m :| 0 <= m < |plates[k]| && IsAlnum(plates[k][m]);
      JoinContains(plates, k, plates[k][m]);
      var j :| 0 <= j < |payload| && payload[j] == plates[k][m];
      assert IsAlnum(payload[j]);
    }
    if Accepts(payload) {
      ExportRoundTrip(plates);
      AcceptedHasPlates(payload);
    }
  }

  /**
   * The plates of an accepted reply survive export: the payload is accepted
   * again and normalizes to the same list.
   */
  lemma ResultRoundTrip(reply: string)
    requires Accepts(reply)
    ensures Accepts(Join(Plates(reply)))
    ensures Plates(Join(Plates(reply))) == Plates(reply)
  {
    AcceptedHasPlates(reply);
    ExportAccepted(Plates(reply));
    ExportRoundTrip(Plates(reply));
  }
}
