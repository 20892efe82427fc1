/** C strings and the order that strcmp puts on them. */
module Text {

  /** A byte of a C string; the terminating NUL is not part of it. */
  type Ch = b: int | 1 <= b < 256 witness 1

  type Text = seq<Ch>

  /** A key and its value. */
  type Pair = (Text, Text)

  /** The sign of the result is what C's strcmp promises: bytes compare as
      unsigned, and a proper prefix comes first (its NUL is the smaller byte). */
  function Strcmp(a: Text, b: Text): int
  {
    if a == [] && b == [] then 0
    else if a == [] then -b[0]
    else if b == [] then a[0]
    else if a[0] != b[0] then a[0] - b[0]
    else Strcmp(a[1..], b[1..])
  }

  predicate Less(a: Text, b: Text)
  {
    Strcmp(a, b) < 0
  }

  /** One string comes before another exactly when, behind a common beginning, it ends or goes on with a
      smaller byte. */
  lemma {:induction false} LessIff(a: Text, b: Text)
    ensures Less(a, b) <==> exists i :: 0 <= i <= |a| && i < |b| && a[..i] == b[..i] && (i == |a| || a[i] < b[i])
  {
    if a == [] || b == [] || a[0] != b[0] {
      assert a[..0] == b[..0];
      assert forall i :: 0 < i <= |a| && i < |b| ==> a[..i][0] == a[0] && b[..i][0] == b[0];
    } else {
      var s, t := a[1..], b[1..];
      LessIff(s, t);
      if Less(s, t) {
        var i :| 0 <= i <= |s| && i < |t| && s[..i] == t[..i] && (i == |s| || s[i] < t[i]);
        assert a[..i + 1] == [a[0]] + s[..i] && b[..i + 1] == [b[0]] + t[..i];
      }
      if i :| 0 <= i <= |a| && i < |b| && a[..i] == b[..i] && (i == |a| || a[i] < b[i]) {
        assert s[..i - 1] == a[..i][1..] && t[..i - 1] == b[..i][1..];
      }
    }
  }

  lemma {:induction false} StrcmpZero(a: Text, b: Text)
    ensures Strcmp(a, b) == 0 <==> a == b
  {
    if a != [] && b != [] && a[0] == b[0] {
      StrcmpZero(a[1..], b[1..]);
      assert a == [a[0]] + a[1..] && b == [b[0]] + b[1..];
    }
  }

  lemma {:induction false} StrcmpNegates(a: Text, b: Text)
    ensures Strcmp(a, b) == -Strcmp(b, a)
  {
    if a != [] && b != [] && a[0] == b[0] {
      StrcmpNegates(a[1..], b[1..]);
    }
  }

  lemma {:induction false} LessTransitive(a: Text, b: Text, c: Text)
    requires Less(a, b) && Less(b, c)
    ensures Less(a, c)
  {
    if a != [] && a[0] == b[0] == c[0] {
      LessTransitive(a[1..], b[1..], c[1..]);
    }
  }

  /** strcmp is a strict total order on C strings. */
  lemma {:induction false} Trichotomy(a: Text, b: Text)
    ensures Less(a, b) <==> Strcmp(b, a) > 0
    ensures Less(a, b) ==> a != b && !Less(b, a)
    ensures a == b || Less(a, b) || Less(b, a)
  {
    StrcmpZero(a, b);
    StrcmpNegates(a, b);
  }
}
