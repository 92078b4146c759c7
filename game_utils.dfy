/**
 * The client's pure helpers (class `GameUtils` of the client's utils file):
 * player-name validation, hp clamping, the camera transform, time formatting,
 * clamping to the world and the resolution of pressed movement keys.
 */
module GameUtils {
  import opened Wrappers
  import opened Geometry

  // ---------------------------------------------------------------------
  // validatePlayerName

  /**
   * The characters `String.prototype.trim` removes: the ECMAScript
   * WhiteSpace (tab, vertical tab, form feed, space, no-break space, the
   * byte order mark and the space separators) and LineTerminator characters.
   */
  predicate IsSpace(c: char) {
    || c == '\t' || c == '\n' || c == '\U{B}' || c == '\U{C}' || c == '\r'
    || c == ' ' || c == '\U{A0}' || c == '\U{1680}'
    || ('\U{2000}' <= c <= '\U{200A}')
    || c == '\U{2028}' || c == '\U{2029}' || c == '\U{202F}' || c == '\U{205F}'
    || c == '\U{3000}' || c == '\U{FEFF}'
  }

  ghost predicate AllSpace(s: string) {
    forall i :: 0 <= i < |s| ==> IsSpace(s[i])
  }

  /** The number of white-space characters `s` starts with. */
  function LeadingSpace(s: string): (k: nat)
    ensures k <= |s| && AllSpace(s[..k]) && (k == |s| || !IsSpace(s[k]))
  {
    if s != [] && IsSpace(s[0]) then
      var k := LeadingSpace(s[1..]);
      assert s[..k + 1] == [s[0]] + s[1..][..k];
      k + 1
    else 0
  }

  /** The number of white-space characters `s` ends with. */
  function TrailingSpace(s: string): (k: nat)
    ensures k <= |s| && AllSpace(s[|s| - k..]) && (k == |s| || !IsSpace(s[|s| - k - 1]))
  {
    if s != [] && IsSpace(s[|s| - 1]) then
      var t := s[..|s| - 1];
      var k := TrailingSpace(t);
      assert s[|s| - (k + 1)..] == t[|t| - k..] + [s[|s| - 1]];
      AllSpaceJoin(t[|t| - k..], [s[|s| - 1]]);
      k + 1
    else 0
  }

  /** `String.prototype.trim`. */
  function Trim(s: string): (r: string)
    ensures r == [] || (!IsSpace(r[0]) && !IsSpace(r[|r| - 1]))
  {
    var i := LeadingSpace(s);
    s[i..|s| - TrailingSpace(s[i..])]
  }

  /** Trimming removes white space from both ends and nothing else. */
  lemma TrimIsInfix(s: string)
    ensures exists i, j :: 0 <= i <= j <= |s| && Trim(s) == s[i..j] && AllSpace(s[..i]) && AllSpace(s[j..])
  {
    var i, j := TrimBounds(s);
  }

  lemma TrimBounds(s: string) returns (i: nat, j: nat)
    ensures 0 <= i <= j <= |s| && Trim(s) == s[i..j] && AllSpace(s[..i]) && AllSpace(s[j..])
  {
    i := LeadingSpace(s);
    var a := s[i..];
    var k := TrailingSpace(a);
    j := |s| - k;
    assert Trim(s) == s[i..j];
    assert a[|a| - k..] == s[j..];
    assert AllSpace(s[j..]);
  }

  /** A name trims to nothing exactly when every one of its characters is white space. */
  lemma TrimEmptyIffAllSpace(s: string)
    ensures Trim(s) == [] <==> AllSpace(s)
  {
    var i := LeadingSpace(s);
    if i == |s| {
      assert s[..i] == s;
      assert s[i..] == [];
    } else {
      var a := s[i..];
      assert a[0] == s[i] && !IsSpace(a[0]);
      assert TrailingSpace(a) < |a| by {
        assert a[0..] == a;
      }
      assert Trim(s) != [];
      assert !AllSpace(s) by {
        assert !IsSpace(s[i]);
      }
    }
  }

  lemma AllSpaceJoin(a: string, b: string)
    requires AllSpace(a) && AllSpace(b)
    ensures AllSpace(a + b)
  {
    forall k | 0 <= k < |a + b| ensures IsSpace((a + b)[k]) {
      if k < |a| { assert (a + b)[k] == a[k]; } else { assert (a + b)[k] == b[k - |a|]; }
    }
  }

  const EMPTY_NAME_ERROR: string := "Введите имя!"
  const LONG_NAME_ERROR: string := "Имя слишком длинное! Максимум 15 символов."
  const MAX_NAME_LENGTH: nat := 15

  /**
   * `String.prototype.length`: the number of UTF-16 code units. A character
   * above U+FFFF is stored as a surrogate pair and counts twice.
   */
  function Utf16Length(s: string): (n: nat)
    ensures |s| <= n <= 2 * |s|
    ensures n == |s| <==> forall i :: 0 <= i < |s| ==> s[i] as int <= 0xFFFF
  {
    if s == [] then 0
    else
      var n := Utf16Length(s[1..]);
      assert forall i :: 0 < i < |s| ==> s[i] == s[1..][i - 1];
      n + if s[0] as int > 0xFFFF then 2 else 1
  }

  /** `{valid: true, name}` or `{valid: false, error}`. */
  datatype NameCheck = Valid(name: string) | Invalid(error: string)

  function ValidatePlayerName(name: string): (r: NameCheck)
    ensures r == Invalid(EMPTY_NAME_ERROR) <==> AllSpace(name)
    ensures r == Invalid(LONG_NAME_ERROR) <==> !AllSpace(name) && Utf16Length(Trim(name)) > MAX_NAME_LENGTH
    ensures r.Valid? <==> !AllSpace(name) && Utf16Length(Trim(name)) <= MAX_NAME_LENGTH
    ensures r.Valid? ==> r.name == Trim(name) && 1 <= |r.name| && 1 <= Utf16Length(r.name) <= MAX_NAME_LENGTH
  {
    TrimEmptyIffAllSpace(name);
    if name == "" || Trim(name) == "" then Invalid(EMPTY_NAME_ERROR)
    else if Utf16Length(Trim(name)) > MAX_NAME_LENGTH then Invalid(LONG_NAME_ERROR)
    else Valid(Trim(name))
  }

  /**
   * The limit counts UTF-16 code units: eight emoji are sixteen units, so
   * a name of eight characters can be too long.
   */
  lemma AstralNameTooLong()
    ensures |"😀😀😀😀😀😀😀😀"| == 8
    ensures ValidatePlayerName("😀😀😀😀😀😀😀😀") == Invalid(LONG_NAME_ERROR)
  {
    var s := "😀😀😀😀😀😀😀😀";
    assert LeadingSpace(s) == 0 && TrailingSpace(s) == 0;
    assert Trim(s) == s;
    assert Utf16Length(s[7..]) == 2;
    assert Utf16Length(s[6..]) == 4;
    assert Utf16Length(s[5..]) == 6;
    assert Utf16Length(s[4..]) == 8;
    assert Utf16Length(s[3..]) == 10;
    assert Utf16Length(s[2..]) == 12;
    assert Utf16Length(s[1..]) == 14;
    assert Utf16Length(s) == 16;
  }

  // ---------------------------------------------------------------------
  // clampHP

  /** `Math.max(0, Math.min(maxHp, hp || 0))`; `hp || 0` is `hp` for every integer. */
  function ClampHP(hp: int, maxHp: int := 100): (r: int)
    ensures maxHp >= 0 ==> 0 <= r <= maxHp
    ensures 0 <= hp <= maxHp ==> r == hp
    ensures hp < 0 ==> r == 0
    ensures 0 <= maxHp < hp ==> r == maxHp
  {
    var m := if maxHp <= hp then maxHp else hp;
    if 0 >= m then 0 else m
  }

  // ---------------------------------------------------------------------
  // Camera transform

  datatype Point = Point(x: real, y: real)
  datatype Camera = Camera(x: real, y: real)

  function WorldToScreen(world: Point, camera: Camera): (s: Point)
    ensures ScreenToWorld(s, camera) == world
  {
    Point(world.x - camera.x, world.y - camera.y)
  }

  function ScreenToWorld(screen: Point, camera: Camera): (w: Point)
    ensures w.x - camera.x == screen.x && w.y - camera.y == screen.y
  {
    Point(screen.x + camera.x, screen.y + camera.y)
  }

  /** Mapping a screen point to the world and back gives the screen point. */
  lemma ScreenWorldRoundTrip(screen: Point, camera: Camera)
    ensures WorldToScreen(ScreenToWorld(screen, camera), camera) == screen
  {
  }

  /**
   * The viewport test of a world point, with `margin` (45 by default) of
   * slack on every side: a point drawn anywhere on the canvas passes.
   */
  predicate IsInViewport(x: real, y: real, camera: Camera, canvasWidth: real, canvasHeight: real, margin: real := 45.0): (b: bool)
    ensures margin > 0.0 && 0.0 <= x - camera.x <= canvasWidth && 0.0 <= y - camera.y <= canvasHeight ==> b
    ensures b ==> camera.x - margin < x < camera.x + canvasWidth + margin
    ensures b ==> camera.y - margin < y < camera.y + canvasHeight + margin
  {
    var screenX := x - camera.x;
    var screenY := y - camera.y;
    screenX > -margin && screenX < canvasWidth + margin
    && screenY > -margin && screenY < canvasHeight + margin
  }

  /** The viewport test asks whether the point's screen position lies in the widened canvas. A proof aid that unfolds the two definitions. */
  lemma ViewportIsScreenBox(x: real, y: real, camera: Camera, w: real, h: real, margin: real)
    ensures IsInViewport(x, y, camera, w, h, margin) <==>
      var s := WorldToScreen(Point(x, y), camera);
      -margin < s.x < w + margin && -margin < s.y < h + margin
  {
  }

  /** A wider margin keeps every point that a narrower one lets through. */
  lemma ViewportWidens(x: real, y: real, camera: Camera, w: real, h: real, margin: real, wider: real)
    requires margin <= wider
    ensures IsInViewport(x, y, camera, w, h, margin) ==> IsInViewport(x, y, camera, w, h, wider)
  {
  }

  /** Moving the camera and the point by the same offset does not change the answer. */
  lemma ViewportFollowsCamera(x: real, y: real, camera: Camera, w: real, h: real, margin: real, dx: real, dy: real)
    ensures IsInViewport(x + dx, y + dy, Camera(camera.x + dx, camera.y + dy), w, h, margin)
        == IsInViewport(x, y, camera, w, h, margin)
  {
  }

  // ---------------------------------------------------------------------
  // formatTime

  function DigitChar(d: nat): (c: char)
    requires d < 10
    ensures '0' <= c <= '9'
  {
    "0123456789"[d]
  }

  function DigitValue(c: char): nat
    requires '0' <= c <= '9'
  {
    (c as int - '0' as int) as nat
  }

  /** `Number.prototype.toString()` of a non-negative integer. */
  function NatToString(n: nat): (s: string)
    ensures |s| >= 1 && IsDigits(s)
    decreases n
  {
    if n < 10 then [DigitChar(n)] else NatToString(n / 10) + [DigitChar(n % 10)]
  }

  /** `Number.prototype.toString()` of an integer. */
  function IntToString(n: int): string {
    if n < 0 then "-" + NatToString(-n) else NatToString(n)
  }

  ghost predicate IsDigits(s: string) {
    forall i :: 0 <= i < |s| ==> '0' <= s[i] <= '9'
  }

  /** The number a string of decimal digits denotes. */
  function Value(s: string): nat
    requires IsDigits(s)
  {
    if s == [] then 0 else 10 * Value(s[..|s| - 1]) + DigitValue(s[|s| - 1])
  }

  /** Printing a number and reading it back gives the number. */
  lemma {:induction false} ValueOfNatToString(n: nat)
    ensures Value(NatToString(n)) == n
    decreases n
  {
    var s := NatToString(n);
    if n >= 10 {
      ValueOfNatToString(n / 10);
      assert s[..|s| - 1] == NatToString(n / 10);
    } else {
      assert "0123456789"[n] as int - '0' as int == n;
    }
    assert "0123456789"[n % 10] as int - '0' as int == n % 10;
  }

  /** Leading zeros do not change the number a digit string denotes. */
  lemma {:induction false} ValueOfZeroPrefixed(s: string)
    requires IsDigits(s)
    ensures IsDigits("0" + s) && Value("0" + s) == Value(s)
    decreases |s|
  {
    var t := "0" + s;
    if s != [] {
      assert t[..|t| - 1] == "0" + s[..|s| - 1];
      ValueOfZeroPrefixed(s[..|s| - 1]);
    } else {
      assert t[..|t| - 1] == [];
    }
  }

  /** `s.padStart(2, '0')`. */
  function PadStart2(s: string): (r: string)
    ensures |r| >= 2
    ensures |s| >= 2 ==> r == s
  {
    if |s| >= 2 then s else if |s| == 1 then "0" + s else "00"
  }

  /** JavaScript's `%`: the remainder takes the sign of the dividend. */
  function JsRem(a: int, b: int): (r: int)
    requires b > 0
    ensures a >= 0 ==> r == a % b
    ensures -b < r < b
  {
    if a >= 0 then a % b else -((-a) % b)
  }

  /**
   * `formatTime(ms)`. `Math.floor(ms / 1000)` and `Math.floor(seconds / 60)`
   * are Dafny's `/` because the divisors are positive.
   */
  function FormatTime(milliseconds: int): (t: string)
    ensures |t| >= 5
  {
    var seconds := milliseconds / 1000;
    var minutes := seconds / 60;
    var remainingSeconds := JsRem(seconds, 60);
    PadStart2(IntToString(minutes)) + ":" + PadStart2(IntToString(remainingSeconds))
  }

  /**
   * `t` is a minutes field of at least two digits, a colon and a seconds
   * field of exactly two digits, reading back as minutes and seconds below
   * 60 that make up `seconds`.
   */
  ghost predicate ShowsTime(t: string, seconds: int) {
    && |t| >= 5 && t[|t| - 3] == ':'
    && IsDigits(t[..|t| - 3]) && IsDigits(t[|t| - 2..])
    && |t[..|t| - 3]| >= 2
    && Value(t[|t| - 2..]) < 60
    && Value(t[..|t| - 3]) * 60 + Value(t[|t| - 2..]) == seconds
  }

  /**
   * For a non-negative duration, `formatTime` prints minutes, a colon and
   * exactly two digits of seconds; the minutes field has at least two digits;
   * reading the two fields back gives minutes and seconds below 60 that make
   * up the whole seconds of the duration.
   */
  lemma FormatTimeFields(milliseconds: int)
    requires milliseconds >= 0
    ensures ShowsTime(FormatTime(milliseconds), milliseconds / 1000)
  {
    var seconds := milliseconds / 1000;
    var minutes := seconds / 60;
    var rest := seconds % 60;
    var mm := PadStart2(NatToString(minutes));
    var ss := PadStart2(NatToString(rest));
    PaddedValue(minutes);
    PaddedValue(rest);
    assert |NatToString(rest)| <= 2 by { SmallNatToString(rest); }
    var t := FormatTime(milliseconds);
    assert JsRem(seconds, 60) == rest;
    assert t == mm + ":" + ss;
    assert |ss| == 2 && |mm| >= 2;
    assert t[..|t| - 3] == mm;
    assert t[|t| - 3] == ':';
    assert t[|t| - 2..] == ss;
    assert Value(mm) * 60 + Value(ss) == minutes * 60 + rest;
  }

  lemma PaddedValue(n: nat)
    ensures IsDigits(PadStart2(NatToString(n))) && Value(PadStart2(NatToString(n))) == n
  {
    var s := NatToString(n);
    ValueOfNatToString(n);
    if |s| == 1 {
      ValueOfZeroPrefixed(s);
    }
  }

  lemma SmallNatToString(n: nat)
    requires n < 100
    ensures |NatToString(n)| <= 2
  {
  }

  // ---------------------------------------------------------------------
  // clampToWorld

  function ClampToWorld(x: real, y: real, worldSize: real): (p: Point)
    ensures worldSize >= 0.0 ==> 0.0 <= p.x <= worldSize && 0.0 <= p.y <= worldSize
    ensures 0.0 <= x <= worldSize && 0.0 <= y <= worldSize ==> p == Point(x, y)
  {
    Point(Clamp(0.0, worldSize, x), Clamp(0.0, worldSize, y))
  }

  // ---------------------------------------------------------------------
  // getMovementDirection

  /** The key bound to each movement (the `controls` argument). */
  datatype Controls = Controls(moveUp: string, moveDown: string, moveLeft: string, moveRight: string)

  datatype Direction = Up | Down | Left | Right

  datatype Movement = Movement(dx: int, dy: int, direction: Option<Direction>)

  /** `getMovementDirection(keys, controls)`; `keys` is the set of keys held down. */
  function GetMovementDirection(keys: set<string>, controls: Controls): (m: Movement)
    ensures m.dx in {-1, 0, 1} && m.dy in {-1, 0, 1}
    ensures m.dy == (if controls.moveDown in keys then 1 else if controls.moveUp in keys then -1 else 0)
    ensures m.dx == (if controls.moveRight in keys then 1 else if controls.moveLeft in keys then -1 else 0)
    ensures m.direction.None? <==> m.dx == 0 && m.dy == 0
    ensures m.dx != 0 ==> m.direction == Some(if m.dx > 0 then Right else Left)
    ensures m.dx == 0 && m.dy != 0 ==> m.direction == Some(if m.dy > 0 then Down else Up)
  {
    var (dx0, dy0, dir0) := (0, 0, None);
    var (dx1, dy1, dir1) := if controls.moveUp in keys then (dx0, -1, Some(Up)) else (dx0, dy0, dir0);
    var (dx2, dy2, dir2) := if controls.moveDown in keys then (dx1, 1, Some(Down)) else (dx1, dy1, dir1);
    var (dx3, dy3, dir3) := if controls.moveLeft in keys then (-1, dy2, Some(Left)) else (dx2, dy2, dir2);
    var (dx4, dy4, dir4) := if controls.moveRight in keys then (1, dy3, Some(Right)) else (dx3, dy3, dir3);
    var direction :=
      if dx4 != 0 && dy4 != 0 then
        (if Abs(dx4) >= Abs(dy4) then (if dx4 > 0 then Some(Right) else Some(Left))
         else (if dy4 > 0 then Some(Down) else Some(Up)))
      else dir4;
    Movement(dx4, dy4, direction)
  }

  function Abs(n: int): nat {
    if n < 0 then -n else n
  }
}
