/** When the text order of ISO 8601 timestamps is their chronological
    order: for fixed-width text, where every field is zero-padded to its
    width and the separators sit in the same places, comparing the strings
    character by character compares the fields in significance order. */
module IsoOrder {
  import opened Ordering
  import opened Timestamps
  import opened IsoText

  /** Every value is a number of at most its width in digits. */
  predicate Fits(vals: seq<int>, widths: seq<nat>)
  {
    |vals| == |widths| && forall k | 0 <= k < |vals| :: 0 <= vals[k] < Pow10(widths[k])
  }

  lemma FitsPrefix(vals: seq<int>, widths: seq<nat>, n: nat)
    requires Fits(vals, widths) && n <= |vals|
    ensures Fits(vals[..n], widths[..n])
  {
  }

  /** For each field in turn its separator, then the field zero-padded. */
  function Render(vals: seq<int>, widths: seq<nat>, seps: seq<string>): (s: string)
    requires Fits(vals, widths) && |seps| == |vals|
    decreases |vals|
  {
    if |vals| == 0 then ""
    else
      var n := |vals| - 1;
      FitsPrefix(vals, widths, n);
      Render(vals[..n], widths[..n], seps[..n]) + seps[n] + Pad(vals[n], widths[n])
  }

  /** The length of the text depends only on the widths and separators. */
  lemma {:induction false} RenderSameLength(a: seq<int>, b: seq<int>, widths: seq<nat>, seps: seq<string>)
    requires Fits(a, widths) && Fits(b, widths) && |seps| == |widths|
    ensures |Render(a, widths, seps)| == |Render(b, widths, seps)|
    decreases |widths|
  {
    if |widths| > 0 {
      var n := |widths| - 1;
      FitsPrefix(a, widths, n);
      FitsPrefix(b, widths, n);
      RenderSameLength(a[..n], b[..n], widths[..n], seps[..n]);
    }
  }

  /** Zero-padded numbers of one width compare as the numbers do. */
  lemma {:induction false} PadOrder(x: nat, y: nat, w: nat)
    requires x < Pow10(w) && y < Pow10(w)
    ensures LexLess(Codes(Pad(x, w)), Codes(Pad(y, w))) <==> x < y
    decreases w
  {
    if w > 0 {
      var px, py := Pad(x / 10, w - 1), Pad(y / 10, w - 1);
      var dx, dy := [Digit(x % 10)], [Digit(y % 10)];
      CodesAppend(px, dx);
      CodesAppend(py, dy);
      LexAppend(Codes(px), Codes(dx), Codes(py), Codes(dy));
      PadOrder(x / 10, y / 10, w - 1);
      PadInjective(x / 10, y / 10, w - 1);
      CodesInjective(px, py);
      assert LexLess(Codes(dx), Codes(dy)) <==> x % 10 < y % 10 by {
        assert Codes(dx)[1..] == [] && Codes(dy)[1..] == [];
      }
      assert x == 10 * (x / 10) + x % 10 && y == 10 * (y / 10) + y % 10;
    } else {
      LexIrreflexive(Codes(Pad(x, w)));
    }
  }

  lemma CodesEqual(a: string, b: string)
    ensures Codes(a) == Codes(b) <==> a == b
  {
    CodesInjective(a, b);
  }

  /** One comparison of a single-element sequence. */
  lemma LexSingleton(x: int, y: int)
    ensures LexLess([x], [y]) <==> x < y
  {
    assert [x][1..] == [] && [y][1..] == [];
  }

  /** Cancelling equal-length heads and tails of two concatenations. */
  lemma ConcatEqual(p1: string, q1: string, p2: string, q2: string)
    requires |p1| == |p2|
    ensures p1 + q1 == p2 + q2 <==> p1 == p2 && q1 == q2
  {
    if p1 + q1 == p2 + q2 {
      assert p1 == (p1 + q1)[..|p1|];
      assert p2 == (p2 + q2)[..|p2|];
      assert q1 == (p1 + q1)[|p1|..];
      assert q2 == (p2 + q2)[|p2|..];
    }
  }

  /** Two texts built the same way, head, separator, field: the heads
      decide unless they are equal, and then the fields do. */
  lemma StepText(ra: string, rb: string, sep: string, pa: string, pb: string)
    requires |ra| == |rb| && |pa| == |pb|
    ensures LexLess(Codes(ra + sep + pa), Codes(rb + sep + pb))
        <==> LexLess(Codes(ra), Codes(rb)) || (ra == rb && LexLess(Codes(pa), Codes(pb)))
    ensures ra + sep + pa == rb + sep + pb <==> ra == rb && pa == pb
  {
    CodesAppend(ra, sep);
    CodesAppend(rb, sep);
    CodesAppend(ra + sep, pa);
    CodesAppend(rb + sep, pb);
    LexAppend(Codes(ra + sep), Codes(pa), Codes(rb + sep), Codes(pb));
    LexAppend(Codes(ra), Codes(sep), Codes(rb), Codes(sep));
    LexIrreflexive(Codes(sep));
    CodesEqual(ra + sep, rb + sep);
    CodesEqual(ra, rb);
    ConcatEqual(ra, sep, rb, sep);
    ConcatEqual(ra + sep, pa, rb + sep, pb);
  }

  /** The same split on the field side: all but the last, then the last. */
  lemma StepFields(a: seq<int>, b: seq<int>)
    requires |a| == |b| > 0
    ensures LexLess(a, b) <==> LexLess(a[..|a| - 1], b[..|b| - 1]) || (a[..|a| - 1] == b[..|b| - 1] && a[|a| - 1] < b[|b| - 1])
    ensures a == b <==> a[..|a| - 1] == b[..|b| - 1] && a[|a| - 1] == b[|b| - 1]
  {
    var n := |a| - 1;
    assert a == a[..n] + [a[n]] && b == b[..n] + [b[n]];
    LexAppend(a[..n], [a[n]], b[..n], [b[n]]);
    LexSingleton(a[n], b[n]);
  }

  /** Rendered text compares as the field sequences compare. */
  lemma RenderLast(vals: seq<int>, widths: seq<nat>, seps: seq<string>)
    requires Fits(vals, widths) && |seps| == |vals| > 0
    ensures Fits(vals[..|vals| - 1], widths[..|vals| - 1])
    ensures Render(vals, widths, seps)
         == Render(vals[..|vals| - 1], widths[..|vals| - 1], seps[..|vals| - 1]) + seps[|vals| - 1] + Pad(vals[|vals| - 1], widths[|vals| - 1])
  {
  }

  lemma {:induction false} RenderOrder(a: seq<int>, b: seq<int>, widths: seq<nat>, seps: seq<string>)
    requires Fits(a, widths) && Fits(b, widths) && |seps| == |widths|
    ensures LexLess(Codes(Render(a, widths, seps)), Codes(Render(b, widths, seps))) <==> LexLess(a, b)
    ensures Render(a, widths, seps) == Render(b, widths, seps) <==> a == b
    decreases |widths|
  {
    if |widths| == 0 {
      LexIrreflexive([]);
    } else {
      var n := |widths| - 1;
      FitsPrefix(a, widths, n);
      FitsPrefix(b, widths, n);
      RenderOrder(a[..n], b[..n], widths[..n], seps[..n]);
      RenderLast(a, widths, seps);
      RenderLast(b, widths, seps);
      RenderSameLength(a[..n], b[..n], widths[..n], seps[..n]);
      StepText(Render(a[..n], widths[..n], seps[..n]), Render(b[..n], widths[..n], seps[..n]), seps[n],
               Pad(a[n], widths[n]), Pad(b[n], widths[n]));
      PadOrder(a[n], b[n], widths[n]);
      PadInjective(a[n], b[n], widths[n]);
      StepFields(a, b);
    }
  }

  const Widths: seq<nat> := [4, 2, 2, 2, 2, 2, 6]
  const Seps: seq<string> := ["", "-", "-", "T", ":", ":", "."]

  /** `isoformat(timespec="microseconds")` without its offset:
      `YYYY-MM-DDTHH:MM:SS.ffffff`, always 26 characters. */
  function MicrosText(dt: Instant): (s: string)
    ensures |s| == 26
  {
    SecondsText(dt) + "." + Pad(dt.microsecond, 6)
  }

  lemma RenderSnoc(vals: seq<int>, widths: seq<nat>, seps: seq<string>, v: int, w: nat, sep: string)
    requires Fits(vals, widths) && 0 <= v < Pow10(w) && |seps| == |vals|
    ensures Fits(vals + [v], widths + [w])
    ensures Render(vals + [v], widths + [w], seps + [sep]) == Render(vals, widths, seps) + sep + Pad(v, w)
  {
    assert (vals + [v])[..|vals|] == vals;
    assert (widths + [w])[..|vals|] == widths;
    assert (seps + [sep])[..|vals|] == seps;
  }

  lemma YearIsRendered(dt: Instant)
    ensures Fits([dt.year], [4])
    ensures Render([dt.year], [4], [""]) == Pad(dt.year, 4)
  {
    assert Pow10(4) == 10000;
    RenderSnoc([], [], [], dt.year, 4, "");
    assert [] + [dt.year] == [dt.year] && [] + [4] == [4] && [] + [""] == [""];
  }

  lemma MonthIsRendered(dt: Instant)
    ensures Fits([dt.year, dt.month], [4, 2])
    ensures Render([dt.year, dt.month], [4, 2], ["", "-"]) == Pad(dt.year, 4) + "-" + Pad(dt.month, 2)
  {
    assert Pow10(2) == 100;
    YearIsRendered(dt);
    RenderSnoc([dt.year], [4], [""], dt.month, 2, "-");
    assert [dt.year] + [dt.month] == [dt.year, dt.month];
    assert [4] + [2] == [4, 2] && [""] + ["-"] == ["", "-"];
  }

  lemma DateIsRendered(dt: Instant)
    ensures Fits([dt.year, dt.month, dt.day], [4, 2, 2])
    ensures Render([dt.year, dt.month, dt.day], [4, 2, 2], ["", "-", "-"])
         == Pad(dt.year, 4) + "-" + Pad(dt.month, 2) + "-" + Pad(dt.day, 2)
  {
    assert Pow10(2) == 100;
    MonthIsRendered(dt);
    RenderSnoc([dt.year, dt.month], [4, 2], ["", "-"], dt.day, 2, "-");
    assert [dt.year, dt.month] + [dt.day] == [dt.year, dt.month, dt.day];
    assert [4, 2] + [2] == [4, 2, 2] && ["", "-"] + ["-"] == ["", "-", "-"];
  }

  lemma HourIsRendered(dt: Instant)
    ensures Fits([dt.year, dt.month, dt.day, dt.hour], [4, 2, 2, 2])
    ensures Render([dt.year, dt.month, dt.day, dt.hour], [4, 2, 2, 2], ["", "-", "-", "T"])
         == Pad(dt.year, 4) + "-" + Pad(dt.month, 2) + "-" + Pad(dt.day, 2) + "T" + Pad(dt.hour, 2)
  {
    assert Pow10(2) == 100;
    DateIsRendered(dt);
    RenderSnoc([dt.year, dt.month, dt.day], [4, 2, 2], ["", "-", "-"], dt.hour, 2, "T");
    assert [dt.year, dt.month, dt.day] + [dt.hour] == [dt.year, dt.month, dt.day, dt.hour];
    assert [4, 2, 2] + [2] == [4, 2, 2, 2] && ["", "-", "-"] + ["T"] == ["", "-", "-", "T"];
  }

  lemma MinuteIsRendered(dt: Instant)
    ensures Fits([dt.year, dt.month, dt.day, dt.hour, dt.minute], [4, 2, 2, 2, 2])
    ensures Render([dt.year, dt.month, dt.day, dt.hour, dt.minute], [4, 2, 2, 2, 2], ["", "-", "-", "T", ":"])
         == Pad(dt.year, 4) + "-" + Pad(dt.month, 2) + "-" + Pad(dt.day, 2) + "T" + Pad(dt.hour, 2)
            + ":" + Pad(dt.minute, 2)
  {
    assert Pow10(2) == 100;
    HourIsRendered(dt);
    RenderSnoc([dt.year, dt.month, dt.day, dt.hour], [4, 2, 2, 2], ["", "-", "-", "T"], dt.minute, 2, ":");
    assert [dt.year, dt.month, dt.day, dt.hour] + [dt.minute] == [dt.year, dt.month, dt.day, dt.hour, dt.minute];
    assert [4, 2, 2, 2] + [2] == [4, 2, 2, 2, 2] && ["", "-", "-", "T"] + [":"] == ["", "-", "-", "T", ":"];
  }

  lemma SecondsTextIsRendered(dt: Instant)
    ensures Fits([dt.year, dt.month, dt.day, dt.hour, dt.minute, dt.second], [4, 2, 2, 2, 2, 2])
    ensures Render([dt.year, dt.month, dt.day, dt.hour, dt.minute, dt.second], [4, 2, 2, 2, 2, 2], ["", "-", "-", "T", ":", ":"])
         == SecondsText(dt)
  {
    assert Pow10(2) == 100;
    MinuteIsRendered(dt);
    var v5 := [dt.year, dt.month, dt.day, dt.hour, dt.minute];
    RenderSnoc(v5, [4, 2, 2, 2, 2], ["", "-", "-", "T", ":"], dt.second, 2, ":");
    assert v5 + [dt.second] == [dt.year, dt.month, dt.day, dt.hour, dt.minute, dt.second];
    assert [4, 2, 2, 2, 2] + [2] == [4, 2, 2, 2, 2, 2];
    assert ["", "-", "-", "T", ":"] + [":"] == ["", "-", "-", "T", ":", ":"];
  }

  /** Whole-second text sorts as the first six fields do, and equal text
      means the same second. */
  lemma SecondsTextOrder(a: Instant, b: Instant)
    ensures LexLess(Codes(SecondsText(a)), Codes(SecondsText(b))) <==> LexLess(Fields(a)[..6], Fields(b)[..6])
    ensures SecondsText(a) == SecondsText(b) <==> Fields(a)[..6] == Fields(b)[..6]
  {
    SecondsTextIsRendered(a);
    SecondsTextIsRendered(b);
    assert Fields(a)[..6] == [a.year, a.month, a.day, a.hour, a.minute, a.second];
    assert Fields(b)[..6] == [b.year, b.month, b.day, b.hour, b.minute, b.second];
    RenderOrder(Fields(a)[..6], Fields(b)[..6], [4, 2, 2, 2, 2, 2], ["", "-", "-", "T", ":", ":"]);
  }

  lemma MicrosTextIsRendered(dt: Instant)
    ensures Fits(Fields(dt), Widths)
    ensures MicrosText(dt) == Render(Fields(dt), Widths, Seps)
  {
    assert Pow10(6) == 1000000;
    SecondsTextIsRendered(dt);
    var v6, w6: seq<nat>, s6 := [dt.year, dt.month, dt.day, dt.hour, dt.minute, dt.second], [4, 2, 2, 2, 2, 2], ["", "-", "-", "T", ":", ":"];
    RenderSnoc(v6, w6, s6, dt.microsecond, 6, ".");
    assert v6 + [dt.microsecond] == Fields(dt);
    assert w6 + [6] == Widths && s6 + ["."] == Seps;
  }

  /** Fixed-width UTC text sorts exactly as the instants do, and different
      instants have different text. */
  lemma MicrosTextOrder(a: Instant, b: Instant)
    ensures LexLess(Codes(MicrosText(a)), Codes(MicrosText(b))) <==> Before(a, b)
    ensures MicrosText(a) == MicrosText(b) <==> a == b
  {
    MicrosTextIsRendered(a);
    MicrosTextIsRendered(b);
    RenderOrder(Fields(a), Fields(b), Widths, Seps);
    FieldsInjective(a, b);
  }

  /** The same with any common suffix, such as the `Z` both encoders
      append. */
  lemma MicrosTextSuffixOrder(a: Instant, b: Instant, suffix: string)
    ensures LexLess(Codes(MicrosText(a) + suffix), Codes(MicrosText(b) + suffix)) <==> Before(a, b)
    ensures MicrosText(a) + suffix == MicrosText(b) + suffix <==> a == b
  {
    MicrosTextOrder(a, b);
    CodesAppend(MicrosText(a), suffix);
    CodesAppend(MicrosText(b), suffix);
    LexAppend(Codes(MicrosText(a)), Codes(suffix), Codes(MicrosText(b)), Codes(suffix));
    LexIrreflexive(Codes(suffix));
    CodesEqual(MicrosText(a), MicrosText(b));
    ConcatEqual(MicrosText(a), suffix, MicrosText(b), suffix);
  }
}
