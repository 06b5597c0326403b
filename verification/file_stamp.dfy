/** The default file date pattern "yyyy-MM-dd_HH-mm-ss-SSS" rendered as in
    `SimpleDateFormat`: every field zero-padded to a fixed width, most
    significant first. This is what makes name order equal the order of the
    local wall-clock readings the names were made from. */
module FileStamp {
  import opened Text
  import opened Config

  /** A local wall-clock reading, in the default time zone, broken into the
      fields of the pattern. It is not an absolute time: when the clock goes
      back, a later reading can be an earlier `Instant`. */
  datatype Instant = Instant(
    year: nat, month: nat, day: nat,
    hour: nat, minute: nat, second: nat, milli: nat)

  const FieldCount: nat := 7

  /** The fields, most significant first. */
  function Fields(t: Instant): (f: seq<nat>)
    ensures |f| == FieldCount
  {
    [t.year, t.month, t.day, t.hour, t.minute, t.second, t.milli]
  }

  /** Digits of field `i` in the pattern: yyyy, then MM dd HH mm ss, then SSS. */
  function Width(i: nat): nat {
    if i == 0 then 4 else if i == 6 then 3 else 2
  }

  /** Literal text the pattern puts before field `i`. */
  function Separator(i: nat): string {
    if i == 0 then "" else if i == 3 then "_" else "-"
  }

  function Pow10(n: nat): (p: nat)
    ensures p > 0
  {
    if n == 0 then 1 else 10 * Pow10(n - 1)
  }

  /** Every field fits its width (years 0..9999). */
  predicate Valid(t: Instant) {
    forall i :: 0 <= i < FieldCount ==> Fields(t)[i] < Pow10(Width(i))
  }

  function Digit(d: nat): char
    requires d < 10
  {
    (48 + d) as char
  }

  /** `n` in decimal, left-padded with zeros to `width` digits. */
  function Pad(n: nat, width: nat): (r: string)
    ensures |r| == width
    ensures forall i :: 0 <= i < |r| ==> '0' <= r[i] <= '9'
  {
    if width == 0 then [] else Pad(n / 10, width - 1) + [Digit(n % 10)]
  }

  /** Fields `i` onwards with their separators. */
  function RenderFrom(f: seq<nat>, i: nat): (r: string)
    requires |f| == FieldCount
    decreases FieldCount - i
  {
    if i >= FieldCount then [] else Separator(i) + Pad(f[i], Width(i)) + RenderFrom(f, i + 1)
  }

  /** `SimpleDateFormat("yyyy-MM-dd_HH-mm-ss-SSS").format(t)`. */
  function Render(t: Instant): string {
    RenderFrom(Fields(t), 0)
  }

  /** Lexicographic order on the fields from `i` on. */
  predicate LexLessFrom(a: seq<nat>, b: seq<nat>, i: nat)
    requires |a| == FieldCount && |b| == FieldCount
    decreases FieldCount - i
  {
    i < FieldCount && (a[i] < b[i] || (a[i] == b[i] && LexLessFrom(a, b, i + 1)))
  }

  /** `a` is an earlier instant than `b`. */
  predicate Before(a: Instant, b: Instant) {
    LexLessFrom(Fields(a), Fields(b), 0)
  }

  lemma {:induction false} RenderFromLength(a: seq<nat>, b: seq<nat>, i: nat)
    requires |a| == FieldCount && |b| == FieldCount
    ensures |RenderFrom(a, i)| == |RenderFrom(b, i)|
    decreases FieldCount - i
  {
    if i < FieldCount {
      RenderFromLength(a, b, i + 1);
    }
  }

  lemma {:induction false} PadOrder(a: nat, b: nat, w: nat)
    requires a < b < Pow10(w)
    ensures Below(Pad(a, w), Pad(b, w))
    decreases w
  {
    if w == 0 {
      assert false;
    } else {
      var qa, qb := a / 10, b / 10;
      assert qb < Pow10(w - 1);
      assert qa <= qb;
      var da, db := [Digit(a % 10)], [Digit(b % 10)];
      BelowConcat(Pad(qa, w - 1), Pad(qb, w - 1), da, db);
      if qa < qb {
        PadOrder(qa, qb, w - 1);
      } else {
        assert a % 10 < b % 10;
        assert Below(da, db);
      }
    }
  }

  lemma {:induction false} RenderFromOrder(a: seq<nat>, b: seq<nat>, i: nat)
    requires |a| == FieldCount && |b| == FieldCount
    requires forall j :: 0 <= j < FieldCount ==> a[j] < Pow10(Width(j)) && b[j] < Pow10(Width(j))
    requires LexLessFrom(a, b, i)
    ensures Below(RenderFrom(a, i), RenderFrom(b, i))
    decreases FieldCount - i
  {
    var s := Separator(i);
    var pa, pb := Pad(a[i], Width(i)), Pad(b[i], Width(i));
    RenderFromLength(a, b, i + 1);
    BelowConcat(s + pa, s + pb, RenderFrom(a, i + 1), RenderFrom(b, i + 1));
    if a[i] < b[i] {
      PadOrder(a[i], b[i], Width(i));
      BelowCommonPrefix(s, pa, pb);
    } else {
      RenderFromOrder(a, b, i + 1);
    }
  }

  lemma {:induction false} LexTrichotomy(a: seq<nat>, b: seq<nat>, i: nat)
    requires |a| == FieldCount && |b| == FieldCount && i <= FieldCount
    ensures a[i..] == b[i..] || LexLessFrom(a, b, i) || LexLessFrom(b, a, i)
    decreases FieldCount - i
  {
    if i < FieldCount {
      LexTrichotomy(a, b, i + 1);
      assert a[i..] == [a[i]] + a[i + 1..];
      assert b[i..] == [b[i]] + b[i + 1..];
    }
  }

  /** Name order is wall-clock order: for valid readings, the rendered stamp
      of `a` sorts before that of `b` exactly when `a` reads earlier. */
  lemma RenderOrder(a: Instant, b: Instant)
    requires Valid(a) && Valid(b)
    ensures Below(Render(a), Render(b)) <==> Before(a, b)
  {
    var fa, fb := Fields(a), Fields(b);
    LexTrichotomy(fa, fb, 0);
    if Before(a, b) {
      RenderFromOrder(fa, fb, 0);
    } else if Before(b, a) {
      RenderFromOrder(fb, fa, 0);
      BelowAsymmetric(Render(b), Render(a));
    } else {
      assert fa == fa[0..] == fb[0..] == fb;
      BelowIrreflexive(Render(a));
    }
  }

  /** Every rendered stamp is as long as the default pattern itself. */
  lemma RenderWidth(t: Instant)
    ensures |Render(t)| == |Default().fileDateFormat| == 23
  {
    var f := Fields(t);
    assert |RenderFrom(f, 6)| == 4;
    assert |RenderFrom(f, 3)| == 13;
  }

  /** With the default configuration, a file named from a later wall-clock
      reading is listed after every file named from an earlier one, and
      conversely. */
  lemma DefaultNamesFollowTime(a: Instant, b: Instant)
    requires Valid(a) && Valid(b)
    ensures Below(FileName(Default(), Render(a)), FileName(Default(), Render(b))) <==> Before(a, b)
  {
    RenderWidth(a);
    RenderWidth(b);
    FileNameOrder(Default(), Render(a), Render(b));
    RenderOrder(a, b);
  }
}
