/** Option, Result and the string helpers every other module shares. */
module Common {

  datatype Option<+T> = None | Some(value: T) {
    function GetOr(default: T): T {
      if Some? then value else default
    }
  }

  datatype Result<+T, +E> = Ok(value: T) | Err(error: E)

  /** The `n` ids from `first` on. */
  function FreshIds(first: nat, n: nat): (ids: set<nat>)
    ensures forall id :: id in ids <==> first <= id < first + n
  {
    if n == 0 then {} else FreshIds(first, n - 1) + {first + n - 1}
  }

  lemma {:induction false} FreshIdsCount(first: nat, n: nat)
    ensures |FreshIds(first, n)| == n
  {
    if n > 0 {
      FreshIdsCount(first, n - 1);
      assert FreshIds(first, n) == FreshIds(first, n - 1) + {first + n - 1};
    }
  }

  /** `str.lower` on the ASCII letters. */
  function LowerChar(c: char): char {
    if 'A' <= c <= 'Z' then c - 'A' + 'a' else c
  }

  function Lower(s: string): (r: string)
    ensures |r| == |s|
    ensures forall i :: 0 <= i < |s| ==> r[i] == LowerChar(s[i])
  {
    seq(|s|, i requires 0 <= i < |s| => LowerChar(s[i]))
  }

  /** The characters `str.strip` removes, as inclusive ranges. */
  const SPACES: seq<(char, char)> := [
    ('\U{001C}', '\U{0020}'), ('\U{0009}', '\U{000D}'), ('\U{0085}', '\U{0085}'), ('\U{00A0}', '\U{00A0}'),
    ('\U{1680}', '\U{1680}'), ('\U{2000}', '\U{200A}'), ('\U{2028}', '\U{2029}'), ('\U{202F}', '\U{202F}'),
    ('\U{205F}', '\U{205F}'), ('\U{3000}', '\U{3000}')]

  predicate InRanges(c: char, ranges: seq<(char, char)>) {
    ranges != [] && (ranges[0].0 <= c <= ranges[0].1 || InRanges(c, ranges[1..]))
  }

  predicate IsSpace(c: char) {
    InRanges(c, SPACES)
  }

  function StripLeft(s: string): string {
    if s != [] && IsSpace(s[0]) then StripLeft(s[1..]) else s
  }

  function StripRight(s: string): string {
    if s != [] && IsSpace(s[|s| - 1]) then StripRight(s[..|s| - 1]) else s
  }

  /** `str.strip()`. */
  function Strip(s: string): string {
    StripRight(StripLeft(s))
  }

  /** No white space at either end. */
  predicate Trimmed(s: string) {
    s == [] || (!IsSpace(s[0]) && !IsSpace(s[|s| - 1]))
  }

  lemma {:induction false} StripLeftEdge(s: string)
    ensures StripLeft(s) == [] || !IsSpace(StripLeft(s)[0])
  {
    if s != [] && IsSpace(s[0]) { StripLeftEdge(s[1..]); }
  }

  lemma {:induction false} StripRightEdge(s: string)
    ensures StripRight(s) <= s
    ensures StripRight(s) == [] || !IsSpace(StripRight(s)[|StripRight(s)| - 1])
  {
    if s != [] && IsSpace(s[|s| - 1]) { StripRightEdge(s[..|s| - 1]); }
  }

  /** `strip` returns the trimmed strings, and leaves exactly those alone. */
  lemma StripTrims(s: string)
    ensures Trimmed(Strip(s))
    ensures Trimmed(s) <==> Strip(s) == s
  {
    StripLeftEdge(s);
    StripRightEdge(StripLeft(s));
  }

  /** And it drops nothing but white space at either end. */
  lemma StripIsTheMiddle(s: string) returns (left: nat, right: nat)
    ensures left <= right <= |s| && Strip(s) == s[left..right]
    ensures forall i :: 0 <= i < |s| && !(left <= i < right) ==> IsSpace(s[i])
  {
    left := StripLeftDrops(s);
    var length := StripRightDrops(StripLeft(s));
    right := left + length;
    hide StripLeft, StripRight, IsSpace;
    var rest := s[left..];
    assert rest[..length] == s[left..right];
    forall i | right <= i < |s| ensures IsSpace(s[i]) {
      assert rest[i - left] == s[i];
    }
  }

  lemma {:induction false} StripLeftDrops(s: string) returns (left: nat)
    ensures left <= |s| && StripLeft(s) == s[left..]
    ensures forall i :: 0 <= i < left ==> IsSpace(s[i])
  {
    left := 0;
    if s != [] && IsSpace(s[0]) {
      var rest := StripLeftDrops(s[1..]);
      left := rest + 1;
      assert s[1..][rest..] == s[left..];
      forall i | 1 <= i < left ensures IsSpace(s[i]) { assert s[1..][i - 1] == s[i]; }
    }
  }

  lemma {:induction false} StripRightDrops(s: string) returns (length: nat)
    ensures length <= |s| && StripRight(s) == s[..length]
    ensures forall i :: length <= i < |s| ==> IsSpace(s[i])
  {
    length := |s|;
    if s != [] && IsSpace(s[|s| - 1]) {
      length := StripRightDrops(s[..|s| - 1]);
      assert s[..|s| - 1][..length] == s[..length];
      forall i | length <= i < |s| - 1 ensures IsSpace(s[i]) { assert s[..|s| - 1][i] == s[i]; }
    }
  }

  /** Printable ASCII above the blank is never white space. */
  lemma VisibleIsNotSpace(c: char)
    requires '!' <= c <= '~'
    ensures !IsSpace(c)
  {
    var r := SPACES;
    assert !InRanges(c, r[10..]);
    assert r[9..][1..] == r[10..] && !InRanges(c, r[9..]);
    assert r[8..][1..] == r[9..] && !InRanges(c, r[8..]);
    assert r[7..][1..] == r[8..] && !InRanges(c, r[7..]);
    assert r[6..][1..] == r[7..] && !InRanges(c, r[6..]);
    assert r[5..][1..] == r[6..] && !InRanges(c, r[5..]);
    assert r[4..][1..] == r[5..] && !InRanges(c, r[4..]);
    assert r[3..][1..] == r[4..] && !InRanges(c, r[3..]);
    assert r[2..][1..] == r[3..] && !InRanges(c, r[2..]);
    assert r[1..][1..] == r[2..] && !InRanges(c, r[1..]);
  }
}
