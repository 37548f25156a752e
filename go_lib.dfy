/**
 * The few pieces of Go's standard library whose behaviour the web service's
 * decisions depend on: `strings.Split` and `strings.SplitN(s, sep, 2)` for a
 * one-character separator, `strings.ToUpper` restricted to ASCII,
 * `filepath.Base` for `/` separators and `strconv.Itoa`.
 */
module GoLib {

  datatype Option<T> = None | Some(value: T)

  // ---------------------------------------------------------------------
  // strings.Split with a one-character separator
  // ---------------------------------------------------------------------

  /** `strings.Split(s, string(sep))`: the pieces of `s` between separators,
      empty pieces included; an empty `s` gives one empty piece. */
  function Split(s: string, sep: char): (parts: seq<string>)
    ensures |parts| >= 1
  {
    if |s| == 0 then [""]
    else
      var rest := Split(s[1..], sep);
      if s[0] == sep then [""] + rest
      else [[s[0]] + rest[0]] + rest[1..]
  }

  /** `strings.Join(parts, string(sep))`. */
  function Join(parts: seq<string>, sep: char): string
    requires |parts| >= 1
  {
    if |parts| == 1 then parts[0]
    else parts[0] + [sep] + Join(parts[1..], sep)
  }

  /** Joining the pieces back with the separator gives the original string. */
  lemma {:induction false} JoinOfSplit(s: string, sep: char)
    ensures Join(Split(s, sep), sep) == s
  {
    if |s| > 0 {
      var rest := Split(s[1..], sep);
      JoinOfSplit(s[1..], sep);
      if s[0] == sep {
        assert Split(s, sep) == [""] + rest;
        assert ([""] + rest)[1..] == rest;
        assert Join([""] + rest, sep) == [sep] + Join(rest, sep);
        assert [sep] + s[1..] == s;
      } else {
        var parts := [[s[0]] + rest[0]] + rest[1..];
        assert Split(s, sep) == parts;
        if |rest| == 1 {
          assert Join(parts, sep) == [s[0]] + rest[0];
        } else {
          assert parts[1..] == rest[1..];
          assert Join(rest, sep) == rest[0] + [sep] + Join(rest[1..], sep);
          assert Join(parts, sep) == [s[0]] + rest[0] + [sep] + Join(rest[1..], sep);
        }
        assert [s[0]] + s[1..] == s;
      }
    }
  }

  /** No piece contains the separator, and there is one piece more than
      there are separators in `s`. */
  lemma {:induction false} SplitPieces(s: string, sep: char)
    ensures forall i :: 0 <= i < |Split(s, sep)| ==> sep !in Split(s, sep)[i]
    ensures |Split(s, sep)| == multiset(s)[sep] + 1
  {
    if |s| > 0 {
      SplitPieces(s[1..], sep);
      assert s == [s[0]] + s[1..];
      assert multiset(s) == multiset([s[0]]) + multiset(s[1..]);
      var rest := Split(s[1..], sep);
      if s[0] != sep {
        var parts := [[s[0]] + rest[0]] + rest[1..];
        assert Split(s, sep) == parts;
        forall i | 0 <= i < |parts| ensures sep !in parts[i] {
          if i == 0 {
            assert sep !in rest[0];
          } else {
            assert parts[i] == rest[i];
          }
        }
      } else {
        assert Split(s, sep) == [""] + rest;
      }
    }
  }

  /** Splitting a string whose first separator follows the piece `a`. */
  lemma {:induction false} SplitAfterPiece(a: string, b: string, sep: char)
    requires sep !in a
    ensures Split(a + [sep] + b, sep) == [a] + Split(b, sep)
  {
    if |a| == 0 {
      assert a + [sep] + b == [sep] + b;
      assert ([sep] + b)[1..] == b;
    } else {
      var s := a + [sep] + b;
      SplitAfterPiece(a[1..], b, sep);
      assert s[1..] == a[1..] + [sep] + b;
      assert s[0] == a[0];
      var rest := Split(s[1..], sep);
      assert rest == [a[1..]] + Split(b, sep);
      assert [s[0]] + rest[0] == a;
      assert rest[1..] == Split(b, sep);
    }
  }

  /** A string without the separator is a single piece. */
  lemma {:induction false} SplitNoSeparator(a: string, sep: char)
    requires sep !in a
    ensures Split(a, sep) == [a]
  {
    if |a| > 0 {
      SplitNoSeparator(a[1..], sep);
      assert [a[0]] + a[1..] == a;
    }
  }

  /** The converse round trip: pieces free of the separator are recovered
      from their join. */
  lemma {:induction false} SplitOfJoin(parts: seq<string>, sep: char)
    requires |parts| >= 1
    requires forall i :: 0 <= i < |parts| ==> sep !in parts[i]
    ensures Split(Join(parts, sep), sep) == parts
  {
    if |parts| == 1 {
      SplitNoSeparator(parts[0], sep);
    } else {
      SplitOfJoin(parts[1..], sep);
      SplitAfterPiece(parts[0], Join(parts[1..], sep), sep);
      assert [parts[0]] + parts[1..] == parts;
    }
  }

  // ---------------------------------------------------------------------
  // strings.SplitN(s, string(sep), 2) on a string that holds sep
  // ---------------------------------------------------------------------

  /** The two halves `strings.SplitN(s, string(sep), 2)` returns when `s`
      holds the separator: what precedes its first occurrence and what
      follows it. */
  function Cut(s: string, sep: char): (halves: (string, string))
    requires sep in s
    ensures halves.0 + [sep] + halves.1 == s
    ensures sep !in halves.0
  {
    if s[0] == sep then ("", s[1..])
    else
      assert sep in s[1..] by { assert s == [s[0]] + s[1..]; }
      var t := Cut(s[1..], sep);
      ([s[0]] + t.0, t.1)
  }

  /** Cutting at the first separator is the only split of that shape. */
  lemma {:induction false} CutUnique(s: string, sep: char, before: string, after: string)
    requires before + [sep] + after == s
    requires sep !in before
    ensures sep in s && Cut(s, sep) == (before, after)
  {
    assert s[|before|] == sep;
    if |before| == 0 {
      assert s[1..] == after;
    } else {
      assert s[0] == before[0];
      assert s[1..] == before[1..] + [sep] + after;
      CutUnique(s[1..], sep, before[1..], after);
      assert [s[0]] + before[1..] == before;
    }
  }

  // ---------------------------------------------------------------------
  // strings.ToUpper, ASCII letters only
  // ---------------------------------------------------------------------

  predicate IsLowerAscii(c: char) { 'a' <= c <= 'z' }

  function UpperAscii(c: char): char
  {
    if IsLowerAscii(c) then (c as int - 'a' as int + 'A' as int) as char else c
  }

  function ToUpper(s: string): string
  {
    seq(|s|, i requires 0 <= i < |s| => UpperAscii(s[i]))
  }

  /** Upper-casing keeps the length, leaves no lower-case ASCII letter,
      turns each lower-case ASCII letter into its capital, changes nothing
      else, and is idempotent. */
  lemma ToUpperProperties(s: string)
    ensures |ToUpper(s)| == |s|
    ensures forall i :: 0 <= i < |s| ==> !IsLowerAscii(ToUpper(s)[i])
    ensures forall i :: 0 <= i < |s| && !IsLowerAscii(s[i]) ==> ToUpper(s)[i] == s[i]
    ensures forall i :: 0 <= i < |s| && IsLowerAscii(s[i]) ==> ToUpper(s)[i] as int == s[i] as int - 32
    ensures ToUpper(ToUpper(s)) == ToUpper(s)
  {
  }

  // ---------------------------------------------------------------------
  // filepath.Base with '/' as the only separator
  // ---------------------------------------------------------------------

  function StripTrailingSlashes(p: string): (q: string)
    decreases |p|
  {
    if |p| > 0 && p[|p| - 1] == '/' then StripTrailingSlashes(p[..|p| - 1]) else p
  }

  /** The part of `p` after its last '/', all of `p` when it has none. */
  function LastElement(p: string): string
    decreases |p|
  {
    if |p| == 0 || p[|p| - 1] == '/' then "" else LastElement(p[..|p| - 1]) + [p[|p| - 1]]
  }

  /** `filepath.Base`: the last element of the path after trailing slashes
      are removed; "." for the empty path and "/" for a path of slashes. */
  function Base(p: string): string
  {
    if p == "" then "."
    else
      var e := LastElement(StripTrailingSlashes(p));
      if e == "" then "/" else e
  }

  lemma {:induction false} LastElementHasNoSlash(p: string)
    ensures '/' !in LastElement(p)
    ensures |LastElement(p)| <= |p|
    decreases |p|
  {
    if |p| > 0 && p[|p| - 1] != '/' {
      LastElementHasNoSlash(p[..|p| - 1]);
    }
  }

  lemma {:induction false} LastElementOfSlashFree(p: string)
    requires '/' !in p
    ensures LastElement(p) == p
    decreases |p|
  {
    if |p| > 0 {
      assert p[..|p| - 1] + [p[|p| - 1]] == p;
      LastElementOfSlashFree(p[..|p| - 1]);
    }
  }

  lemma {:induction false} LastElementAfterSlash(dir: string, name: string)
    ensures LastElement(dir + "/" + name) == LastElement(name)
    decreases |name|
  {
    var p := dir + "/" + name;
    if |name| == 0 {
      assert p[|p| - 1] == '/';
    } else {
      assert p[..|p| - 1] == dir + "/" + name[..|name| - 1];
      assert p[|p| - 1] == name[|name| - 1];
      LastElementAfterSlash(dir, name[..|name| - 1]);
    }
  }

  lemma {:induction false} StripOfSlashTerminated(p: string)
    ensures StripTrailingSlashes(p + "/") == StripTrailingSlashes(p)
  {
    assert (p + "/")[..|p|] == p;
  }

  /** The base name is never empty and holds no '/' unless it is "/". */
  lemma BaseShape(p: string)
    ensures Base(p) != ""
    ensures Base(p) != "/" ==> '/' !in Base(p)
  {
    if p != "" {
      LastElementHasNoSlash(StripTrailingSlashes(p));
    }
  }

  /** A path "dir/name" has base name `name` when `name` is a non-empty
      file name without slashes, and a trailing slash does not change the
      base name of a non-empty path. */
  lemma BaseOfJoinedPath(dir: string, name: string)
    requires name != "" && '/' !in name
    ensures Base(dir + "/" + name) == name
    ensures Base(dir + "/" + name + "/") == name
  {
    var p := dir + "/" + name;
    assert p[|p| - 1] == name[|name| - 1];
    assert StripTrailingSlashes(p) == p;
    LastElementAfterSlash(dir, name);
    LastElementOfSlashFree(name);
    StripOfSlashTerminated(p);
  }

  /** Taking the base name twice changes nothing. */
  lemma BaseIdempotent(p: string)
    ensures Base(Base(p)) == Base(p)
  {
    var b := Base(p);
    BaseShape(p);
    if b == "/" {
      assert StripTrailingSlashes(b) == StripTrailingSlashes("");
    } else if b == "." {
      assert LastElement(b) == LastElement("") + ".";
    } else {
      assert b[|b| - 1] != '/';
      assert StripTrailingSlashes(b) == b;
      LastElementOfSlashFree(b);
    }
  }

  // ---------------------------------------------------------------------
  // strconv.Itoa and its inverse on decimal text
  // ---------------------------------------------------------------------

  function DigitChar(d: int): char
    requires 0 <= d < 10
  {
    ('0' as int + d) as char
  }

  /** Decimal digits of `n`, most significant first, no leading zero. */
  function Digits(n: nat): string
  {
    if n < 10 then [DigitChar(n)] else Digits(n / 10) + [DigitChar(n % 10)]
  }

  /** `strconv.Itoa(n)`. */
  function Itoa(n: int): string
  {
    if n < 0 then "-" + Digits(-n) else Digits(n)
  }

  predicate IsDigit(c: char) { '0' <= c <= '9' }

  /** The value of a string of decimal digits. */
  function DigitsValue(s: string): int
    requires forall i :: 0 <= i < |s| ==> IsDigit(s[i])
  {
    if |s| == 0 then 0
    else DigitsValue(s[..|s| - 1]) * 10 + (s[|s| - 1] as int - '0' as int)
  }

  /** Reading back decimal text, with an optional leading '-'. */
  function Atoi(s: string): Option<int>
  {
    if |s| > 0 && s[0] == '-' then
      if |s| > 1 && forall i :: 1 <= i < |s| ==> IsDigit(s[i]) then Some(-DigitsValue(s[1..])) else None
    else if |s| > 0 && forall i :: 0 <= i < |s| ==> IsDigit(s[i]) then Some(DigitsValue(s))
    else None
  }

  lemma {:induction false} DigitsRoundTrip(n: nat)
    ensures |Digits(n)| >= 1
    ensures forall i :: 0 <= i < |Digits(n)| ==> IsDigit(Digits(n)[i])
    ensures DigitsValue(Digits(n)) == n
  {
    if n >= 10 {
      DigitsRoundTrip(n / 10);
      var d := Digits(n);
      assert d[..|d| - 1] == Digits(n / 10);
    }
  }

  /** `Itoa` loses nothing: its text reads back as the same number. */
  lemma ItoaRoundTrip(n: int)
    ensures Atoi(Itoa(n)) == Some(n)
  {
    if n < 0 {
      DigitsRoundTrip(-n);
      assert Itoa(n)[1..] == Digits(-n);
    } else {
      DigitsRoundTrip(n);
    }
  }

  /** Distinct numbers have distinct decimal texts; "0" is the text of 0 only. */
  lemma ItoaInjective(a: int, b: int)
    ensures Itoa(a) == Itoa(b) <==> a == b
    ensures Itoa(a) == "0" <==> a == 0
  {
    ItoaRoundTrip(a);
    ItoaRoundTrip(b);
    ItoaRoundTrip(0);
  }
}
