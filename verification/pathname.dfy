/** The display name of the shared file: the path argument split on "/" and the
    last piece popped off (`split("/").collect()` then `pop().unwrap()`). */
module PathName {
  import opened Options

  const Separator: char := '/'

  /** `str::split` with a one-character pattern: every occurrence of `sep` cuts,
      so `n` occurrences give `n + 1` pieces, empty pieces included. */
  function Split(s: string, sep: char): (r: seq<string>)
    ensures |r| >= 1
    decreases |s|
  {
    if |s| == 0 then [""]
    else
      var init := Split(s[..|s| - 1], sep);
      var c := s[|s| - 1];
      if c == sep then init + [""]
      else init[..|init| - 1] + [init[|init| - 1] + [c]]
  }

  /** The inverse of `Split`: the pieces glued back with `sep` between them. */
  function Join(parts: seq<string>, sep: char): string
    requires |parts| >= 1
    decreases |parts|
  {
    if |parts| == 1 then parts[0]
    else Join(parts[..|parts| - 1], sep) + [sep] + parts[|parts| - 1]
  }

  /** Number of occurrences of `c` in `s`. */
  function Count(s: string, c: char): nat
    decreases |s|
  {
    if |s| == 0 then 0
    else Count(s[..|s| - 1], c) + (if s[|s| - 1] == c then 1 else 0)
  }

  /** `Vec::pop`: the last element and what remains, or `None` on an empty vector. */
  function Pop<T>(xs: seq<T>): (r: Option<(seq<T>, T)>)
    ensures r.None? <==> |xs| == 0
    ensures r.Some? ==> r.value.0 + [r.value.1] == xs
  {
    if |xs| == 0 then None else Some((xs[..|xs| - 1], xs[|xs| - 1]))
  }

  /** The name under which the file is offered. `None` would be the panic of
      `unwrap()` on an empty vector; the ensures show it never happens and that
      the name is the longest suffix of the path without a separator. */
  function FileName(path: string): (r: Option<string>)
    ensures r.Some?
    ensures Separator !in r.value
    ensures |r.value| <= |path| && path[|path| - |r.value|..] == r.value
    ensures |r.value| < |path| ==> path[|path| - |r.value| - 1] == Separator
  {
    match Pop(Split(path, Separator))
    case None => None
    case Some((_, last)) =>
      SplitLast(path, Separator);
      Some(last)
  }

  /** An independent reading of the name: scan from the end for the last
      separator and keep what follows it. */
  function AfterLastSeparator(path: string): string
    decreases |path|
  {
    if |path| == 0 then ""
    else if path[|path| - 1] == Separator then ""
    else AfterLastSeparator(path[..|path| - 1]) + [path[|path| - 1]]
  }

  /** One step of `Split`: the effect of one more character at the end. */
  lemma SplitSnoc(p: string, c: char, sep: char)
    ensures var init := Split(p, sep);
      Split(p + [c], sep)
        == if c == sep then init + [""] else init[..|init| - 1] + [init[|init| - 1] + [c]]
  {
    assert (p + [c])[..|p|] == p;
  }

  /** One step of `Join`: the effect of one more piece at the end. */
  lemma JoinSnoc(parts: seq<string>, piece: string, sep: char)
    requires |parts| >= 1
    ensures Join(parts + [piece], sep) == Join(parts, sep) + [sep] + piece
  {
    assert (parts + [piece])[..|parts|] == parts;
  }

  /** Extending the last piece extends the joined text. */
  lemma {:induction false} JoinExtendLast(parts: seq<string>, sep: char, c: char)
    requires |parts| >= 1
    ensures Join(parts[..|parts| - 1] + [parts[|parts| - 1] + [c]], sep) == Join(parts, sep) + [c]
  {
    var init, last := parts[..|parts| - 1], parts[|parts| - 1];
    if |parts| == 1 {
    } else {
      assert parts == init + [last];
      JoinSnoc(init, last + [c], sep);
      JoinSnoc(init, last, sep);
    }
  }

  /** The last piece is the longest suffix without `sep`: no piece holds `sep`,
      the last one ends the text, and a `sep` stands right before it unless it
      is the whole text. */
  lemma {:induction false} SplitLast(s: string, sep: char)
    ensures var r := Split(s, sep);
      && sep !in r[|r| - 1]
      && |r[|r| - 1]| <= |s| && s[|s| - |r[|r| - 1]|..] == r[|r| - 1]
      && (|r[|r| - 1]| < |s| ==> s[|s| - |r[|r| - 1]| - 1] == sep)
    decreases |s|
  {
    if |s| > 0 {
      var p, c := s[..|s| - 1], s[|s| - 1];
      assert s == p + [c];
      SplitLast(p, sep);
      SplitSnoc(p, c, sep);
      if c != sep {
        var init := Split(p, sep);
        var last := init[|init| - 1];
        assert Split(s, sep)[|init| - 1] == last + [c];
        assert s[|s| - |last| - 1..] == p[|p| - |last|..] + [c];
      }
    }
  }

  /** No piece holds the separator. */
  lemma {:induction false} SplitPiecesPlain(s: string, sep: char)
    ensures forall i :: 0 <= i < |Split(s, sep)| ==> sep !in Split(s, sep)[i]
    decreases |s|
  {
    if |s| > 0 {
      var p, c := s[..|s| - 1], s[|s| - 1];
      assert s == p + [c];
      SplitPiecesPlain(p, sep);
      SplitSnoc(p, c, sep);
      SplitLast(s, sep);
    }
  }

  /** Splitting then joining gives the original text back. */
  lemma {:induction false} JoinSplit(s: string, sep: char)
    ensures Join(Split(s, sep), sep) == s
    decreases |s|
  {
    if |s| > 0 {
      var p, c := s[..|s| - 1], s[|s| - 1];
      assert s == p + [c];
      JoinSplit(p, sep);
      SplitSnoc(p, c, sep);
      var init := Split(p, sep);
      if c == sep {
        JoinSnoc(init, "", sep);
        assert Join(init, sep) + [sep] + "" == s;
      } else {
        JoinExtendLast(init, sep, c);
      }
    }
  }

  /** Text without `sep` appended to `x` only lengthens the last piece. */
  lemma {:induction false} SplitAppendPlain(x: string, t: string, sep: char)
    requires sep !in t
    ensures var parts := Split(x, sep);
      Split(x + t, sep) == parts[..|parts| - 1] + [parts[|parts| - 1] + t]
    decreases |t|
  {
    var parts := Split(x, sep);
    var lastPart := parts[|parts| - 1];
    if |t| == 0 {
      assert x + t == x;
      assert lastPart + t == lastPart;
      assert parts == parts[..|parts| - 1] + [lastPart];
    } else {
      var t', c := t[..|t| - 1], t[|t| - 1];
      assert t == t' + [c];
      SplitAppendPlain(x, t', sep);
      assert x + t == (x + t') + [c];
      SplitSnoc(x + t', c, sep);
      assert (lastPart + t') + [c] == lastPart + t;
    }
  }

  /** Joining pieces free of `sep` and splitting again gives the pieces back. */
  lemma {:induction false} SplitJoin(parts: seq<string>, sep: char)
    requires |parts| >= 1
    requires forall i :: 0 <= i < |parts| ==> sep !in parts[i]
    ensures Split(Join(parts, sep), sep) == parts
    decreases |parts|
  {
    var last := parts[|parts| - 1];
    if |parts| == 1 {
      SplitAppendPlain("", last, sep);
      assert "" + last == last;
    } else {
      var init := parts[..|parts| - 1];
      assert parts == init + [last];
      SplitJoin(init, sep);
      JoinSnoc(init, last, sep);
      SplitSnoc(Join(init, sep), sep, sep);
      SplitAppendPlain(Join(init, sep) + [sep], last, sep);
      assert "" + last == last;
    }
  }

  /** `n` separators cut the text into exactly `n + 1` pieces. */
  lemma {:induction false} SplitCount(s: string, sep: char)
    ensures |Split(s, sep)| == Count(s, sep) + 1
    decreases |s|
  {
    if |s| > 0 {
      SplitCount(s[..|s| - 1], sep);
    }
  }

  /** The popped name is the text after the last separator. */
  lemma {:induction false} FileNameAfterLastSeparator(path: string)
    ensures FileName(path).value == AfterLastSeparator(path)
    decreases |path|
  {
    if |path| > 0 && path[|path| - 1] != Separator {
      var p := path[..|path| - 1];
      FileNameAfterLastSeparator(p);
      var init := Split(p, Separator);
      assert Split(path, Separator)[|init| - 1] == init[|init| - 1] + [path[|path| - 1]];
    }
  }

  /** With no separator in the path, the whole path is the name. */
  lemma FileNameWithoutSeparator(path: string)
    requires Separator !in path
    ensures FileName(path).value == path
  {
  }

  /** A path ending in a separator names the empty string. */
  lemma FileNameTrailingSeparator(path: string)
    requires |path| > 0 && path[|path| - 1] == Separator
    ensures FileName(path).value == ""
  {
  }

  /** A separator in the path splits it into a directory part, one separator and
      the name. */
  lemma FileNameWithSeparator(path: string)
    requires Separator in path
    ensures exists dir :: path == dir + [Separator] + FileName(path).value
  {
    var name := FileName(path).value;
    var dir := path[..|path| - |name| - 1];
    assert path == dir + [Separator] + name;
  }

  /** However many directories precede it, the name after the last separator is
      what is popped. */
  lemma FileNameOf(dir: string, name: string)
    requires Separator !in name
    ensures FileName(dir + [Separator] + name).value == name
  {
    var d := dir + [Separator];
    SplitSnoc(dir, Separator, Separator);
    SplitAppendPlain(d, name, Separator);
    assert "" + name == name;
  }
}
