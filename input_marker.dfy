/**
 * The upload marker.  The front end uploads a file `name` as `name.Input`
 * and records the path `bucket/name.Input`; the stream handler turns the
 * recorded path back into a locator with `s3Path.replace('.Input', '')`,
 * which removes the FIRST occurrence of `.Input` wherever it is, not a
 * suffix.
 */
module InputMarker {
  const Marker: string := ".Input"

  /** `Marker` starts at index `i` of `s`. */
  predicate OccursAt(s: string, i: int) {
    0 <= i && i + |Marker| <= |s| && s[i..i + |Marker|] == Marker
  }

  predicate Contains(s: string) {
    exists i :: 0 <= i <= |s| && OccursAt(s, i)
  }

  /** `i` is the first occurrence of `Marker` in `s`. */
  predicate IsFirstOccurrence(s: string, i: int) {
    OccursAt(s, i) && forall j :: 0 <= j < i ==> !OccursAt(s, j)
  }

  /** `String.prototype.replace` with a string pattern and an empty replacement. */
  function StripInputMarker(s: string): (r: string)
    ensures |r| == |s| || |r| == |s| - |Marker|
    decreases |s|
  {
    if |s| < |Marker| then s
    else if s[..|Marker|] == Marker then s[|Marker|..]
    else [s[0]] + StripInputMarker(s[1..])
  }

  lemma OccursAtShift(s: string, i: int)
    requires |s| > 0 && 0 <= i
    ensures OccursAt(s, i + 1) <==> OccursAt(s[1..], i)
  {
    if 0 <= i && i + 1 + |Marker| <= |s| {
      assert s[i + 1..i + 1 + |Marker|] == s[1..][i..i + |Marker|];
    }
  }

  /** A string without the marker is returned unchanged. */
  lemma {:induction false} StripAbsent(s: string)
    requires !Contains(s)
    ensures StripInputMarker(s) == s
    decreases |s|
  {
    if |s| >= |Marker| {
      assert !OccursAt(s, 0);
      assert !Contains(s[1..]) by {
        forall i | 0 <= i <= |s[1..]| ensures !OccursAt(s[1..], i) {
          OccursAtShift(s, i);
        }
      }
      StripAbsent(s[1..]);
      assert s == [s[0]] + s[1..];
    }
  }

  /** With a first occurrence at `i`, exactly those six characters go. */
  lemma {:induction false} StripFirst(s: string, i: nat)
    requires IsFirstOccurrence(s, i)
    ensures StripInputMarker(s) == s[..i] + s[i + |Marker|..]
    ensures |StripInputMarker(s)| == |s| - |Marker|
    decreases i
  {
    if i == 0 {
      assert s[..|Marker|] == Marker;
    } else {
      var t := s[1..];
      assert !OccursAt(s, 0);
      assert StripInputMarker(s) == [s[0]] + StripInputMarker(t);
      OccursAtShift(s, i - 1);
      forall j | 0 <= j < i - 1 ensures !OccursAt(t, j) {
        OccursAtShift(s, j);
      }
      StripFirst(t, i - 1);
      assert s[..i] == [s[0]] + t[..i - 1];
      assert s[i + |Marker|..] == t[i - 1 + |Marker|..];
    }
  }

  /** Every occurrence at or after some first occurrence. */
  lemma {:induction false} FirstOccurrenceAtMost(s: string, k: nat) returns (i: nat)
    requires OccursAt(s, k)
    ensures i <= k && IsFirstOccurrence(s, i)
    decreases k
  {
    if j :| 0 <= j < k && OccursAt(s, j) {
      i := FirstOccurrenceAtMost(s, j);
    } else {
      i := k;
    }
  }

  /**
   * The whole behaviour of the strip: without the marker the string is
   * unchanged; otherwise the first occurrence, and only it, is removed, and
   * the result is six characters shorter.
   */
  lemma StripSpec(s: string) returns (i: nat)
    ensures !Contains(s) ==> StripInputMarker(s) == s
    ensures Contains(s) ==>
      IsFirstOccurrence(s, i) &&
      StripInputMarker(s) == s[..i] + s[i + |Marker|..] &&
      |StripInputMarker(s)| == |s| - 6
  {
    if Contains(s) {
      var k :| 0 <= k <= |s| && OccursAt(s, k);
      i := FirstOccurrenceAtMost(s, k);
      StripFirst(s, i);
    } else {
      i := 0;
      StripAbsent(s);
    }
  }

  /** The strip is not idempotent: a second marker survives one pass. */
  lemma NotIdempotent()
    ensures StripInputMarker("a.Input.Input") == "a.Input"
    ensures StripInputMarker(StripInputMarker("a.Input.Input")) == "a"
  {
    assert IsFirstOccurrence("a.Input.Input", 1) by {
      assert !OccursAt("a.Input.Input", 0) by {
        assert "a.Input.Input"[0] != Marker[0];
      }
    }
    StripFirst("a.Input.Input", 1);
    assert "a.Input.Input"[..1] + "a.Input.Input"[7..] == "a.Input";
    assert IsFirstOccurrence("a.Input", 1) by {
      assert !OccursAt("a.Input", 0) by {
        assert "a.Input"[0] != Marker[0];
      }
    }
    StripFirst("a.Input", 1);
    assert "a.Input"[..1] + "a.Input"[7..] == "a";
  }

  /**
   * The marker cannot overlap the end of a marker-free prefix: the only `.`
   * in `.Input` is its first character.
   */
  lemma AppendedMarkerIsFirst(p: string)
    requires !Contains(p)
    ensures IsFirstOccurrence(p + Marker, |p|)
  {
    var s := p + Marker;
    assert s[|p|..] == Marker;
    forall j | 0 <= j < |p| ensures !OccursAt(s, j) {
      if j + |Marker| <= |p| {
        assert s[j..j + |Marker|] == p[j..j + |Marker|];
        assert !OccursAt(p, j);
      } else {
        var d := |p| - j;
        assert s[j..j + |Marker|][d] == '.';
        assert Marker[d] != '.';
        assert s[j..j + |Marker|] != Marker;
      }
    }
  }

  /**
   * The round trip with the front end's naming: a file `name` in `bucket`
   * is recorded as `bucket/name.Input`, and the strip gives back
   * `bucket/name` whenever that path has no `.Input` of its own.
   */
  lemma UploadPathRoundTrip(bucket: string, name: string)
    requires !Contains(bucket + "/" + name)
    ensures StripInputMarker(bucket + "/" + name + ".Input") == bucket + "/" + name
  {
    var p := bucket + "/" + name;
    AppendedMarkerIsFirst(p);
    StripFirst(p + Marker, |p|);
    assert (p + Marker)[..|p|] == p;
    assert (p + Marker)[|p| + |Marker|..] == [];
  }
}
