/** Reading and writing .config files as scripts/config/confdata.c and symbol.c do it: a line
    buffer that grows, strings that are cut and unescaped in place, and output that is escaped
    into a buffer of the exact size. Every method is proved against ConfigText. */
module ConfigReader {
  import opened Common
  import opened Expressions
  import opened ConfigText

  // ----- C strings in a buffer -----

  function CStr(b: array<char>, i: nat): string
    requires i <= b.Length
    reads b
  {
    CString(b[i..])
  }

  /** The string that starts at i ends at end. */
  predicate Ends(b: array<char>, i: nat, end: nat)
    reads b
  {
    i <= end < b.Length && b[end] == NUL && NUL !in b[i..end]
  }

  lemma EndsCStr(b: array<char>, i: nat, end: nat)
    requires Ends(b, i, end)
    ensures CStr(b, i) == b[i..end]
  {
    assert b[i..] == b[i..end] + [NUL] + b[end + 1..];
    IndexAfter(b[i..end], NUL, b[end + 1..]);
  }

  lemma EndAt(b: array<char>, i: nat, limit: nat)
    requires i <= limit < b.Length && b[limit] == NUL
    ensures var end := i + |CStr(b, i)|;
            Ends(b, i, end) && end <= limit && CStr(b, i) == b[i..end] && end == i + Index(b[i..], NUL)
  {
    var n := Index(b[i..], NUL);
    assert b[i..][limit - i] == NUL;
    Before(b[i..], NUL, n);
    assert b[i..i + n] == b[i..][..n];
  }

  /** strlen, as the index of the terminator. */
  method End(b: array<char>, i: nat, ghost limit: nat) returns (end: nat)
    requires i <= limit < b.Length && b[limit] == NUL
    ensures Ends(b, i, end) && end <= limit && CStr(b, i) == b[i..end]
  {
    end := i;
    while b[end] != NUL
      invariant i <= end <= limit && NUL !in b[i..end]
      decreases limit - end
    {
      end := end + 1;
    }
    EndsCStr(b, i, end);
  }

  lemma StrChrEnd(b: array<char>, i: nat, p: nat, end: nat, c: char)
    requires Ends(b, i, end) && i <= p <= end && c !in b[i..p] && c != NUL && (p < end ==> b[p] == c)
    ensures var s := CStr(b, i);
            && Index(s, c) == p - i && |s| == end - i
            && (p < end ==> CStr(b, p + 1) == s[Index(s, c) + 1..])
  {
    hide CString;
    EndsCStr(b, i, end);
    var s := b[i..end];
    assert s[..p - i] == b[i..p];
    if p < end {
      assert s[p - i] == c;
      IndexUnique(s, c, p - i);
      assert b[p + 1..end] == s[p - i + 1..];
      EndsCStr(b, p + 1, end);
    } else {
      IndexNone(s, c);
    }
  }

  /** strchr: where c stands in the string that starts at i, if it does. */
  method StrChr(b: array<char>, i: nat, c: char, ghost limit: nat) returns (p: nat, found: bool)
    requires i <= limit < b.Length && b[limit] == NUL && c != NUL
    ensures var s := CStr(b, i);
            && found == (Index(s, c) < |s|)
            && (found ==> p == i + Index(s, c) && p < limit && CStr(b, p + 1) == s[Index(s, c) + 1..])
  {
    hide CString, Index;
    ghost var end := i + |CStr(b, i)|;
    EndAt(b, i, limit);
    p := i;
    while b[p] != NUL && b[p] != c
      invariant i <= p <= end && c !in b[i..p]
      decreases end - p
    {
      p := p + 1;
    }
    found := b[p] == c;
    StrChrEnd(b, i, p, end, c);
  }

  /** strncmp and memcmp with a text that has no NUL. */
  method Matches(b: array<char>, i: nat, text: string) returns (same: bool)
    requires i <= b.Length
    ensures same == StartsWith(b[i..], text)
  {
    var k := 0;
    while k < |text| && i + k < b.Length && b[i + k] == text[k]
      invariant k <= |text| && i + k <= b.Length && b[i..i + k] == text[..k]
    {
      k := k + 1;
    }
    same := k == |text|;
    if same {
      assert b[i..][..|text|] == b[i..i + k];
    } else if i + k < b.Length {
      assert b[i..][k] == b[i + k];
    }
  }

  /** Ends the string that starts at p at q already. */
  method Cut(b: array<char>, p: nat, q: nat, ghost limit: nat)
    requires p <= limit < b.Length && b[limit] == NUL && p <= q <= p + |CStr(b, p)|
    modifies b
    ensures CStr(b, p) == old(CStr(b, p))[..q - p] && q <= limit
    ensures forall i :: 0 <= i < b.Length ==> b[i] == if i == q then NUL else old(b[i])
  {
    EndAt(b, p, limit);
    ghost var s := CStr(b, p);
    b[q] := NUL;
    assert b[p..q] == s[..q - p];
    assert NUL !in s[..q - p];
    EndsCStr(b, p, q);
  }

  // ----- unescaping in place -----

  /** strpbrk: the next quote, backslash or terminator. */
  method StrPBrk(b: array<char>, q: nat, ghost limit: nat) returns (r: nat)
    requires q <= limit < b.Length && b[limit] == NUL
    ensures q <= r <= limit && (b[r] == NUL || Special(b[r]))
    ensures forall k :: q <= k < r ==> b[k] != NUL && !Special(b[k])
  {
    r := q;
    while b[r] != NUL && !Special(b[r])
      invariant q <= r <= limit
      invariant forall k :: q <= k < r ==> b[k] != NUL && !Special(b[k])
      decreases limit - r
    {
      r := r + 1;
    }
  }

  /** memmove by one to the left, terminator included. */
  method Delete(b: array<char>, q: nat, end: nat)
    requires q < end < b.Length
    modifies b
    ensures forall j :: 0 <= j < b.Length ==> b[j] == if q <= j < end then old(b[j + 1]) else old(b[j])
  {
    var j := q;
    while j < end
      invariant q <= j <= end
      invariant forall k :: 0 <= k < b.Length ==> b[k] == if q <= k < j then old(b[k + 1]) else old(b[k])
    {
      b[j] := b[j + 1];
      j := j + 1;
    }
  }

  lemma {:induction false} UnquoteSkip(t: string, k: nat)
    requires k <= |t| && forall i :: 0 <= i < k ==> !Special(t[i])
    ensures Unquote(t) == Prepend(t[..k], Unquote(t[k..]))
    decreases k
  {
    PrependTwice("", "", Unquote(t));
    if k > 0 {
      UnquoteSkip(t[1..], k - 1);
      assert t[1..][k - 1..] == t[k..];
      PrependTwice([t[0]], t[1..][..k - 1], Unquote(t[k..]));
      assert [t[0]] + t[1..][..k - 1] == t[..k];
    } else {
      assert t[0..] == t && t[..0] == "";
    }
  }

  lemma SliceParts(s: seq<char>, q: nat, r: nat, e: nat)
    requires q <= r <= e <= |s|
    ensures s[q..e][..r - q] == s[q..r] && s[q..e][r - q..] == s[r..e]
  {
  }

  /** Skipping ordinary characters. */
  lemma Skipped(b: array<char>, p: nat, q: nat, r: nat, e: nat, s: string)
    requires p <= q <= r <= e < b.Length && Unquote(s) == Prepend(b[p..q], Unquote(b[q..e]))
    requires forall k :: q <= k < r ==> !Special(b[k])
    ensures Unquote(s) == Prepend(b[p..r], Unquote(b[r..e]))
  {
    hide Unquote, Prepend;
    var t := b[q..e];
    assert forall i :: 0 <= i < r - q ==> t[i] == b[q + i];
    UnquoteSkip(t, r - q);
    SliceParts(b[..], q, r, e);
    PrependTwice(b[p..q], b[q..r], Unquote(b[r..e]));
    assert b[p..q] + b[q..r] == b[p..r];
  }

  /** A backslash and the character it protects. */
  lemma Protected(front: string, t: string, s: string)
    requires t != "" && t[0] == '\\' && Unquote(s) == Prepend(front, Unquote(t))
    ensures |t| == 1 ==> Unquote(s).None?
    ensures |t| > 1 ==> Unquote(s) == Prepend(front + [t[1]], Unquote(t[2..]))
  {
    if |t| > 1 {
      PrependTwice(front, [t[1]], Unquote(t[2..]));
    }
  }

  /** In the middle of unescaping s, which started at p: what stands before q is done, the rest
      is still escaped. */
  ghost predicate Unescaping(b: array<char>, p: nat, q: nat, e: nat, s: string)
    reads b
  {
    p <= q <= e && Ends(b, p, e) && Unquote(s) == Prepend(b[p..q], Unquote(b[q..e]))
  }

  method DropBackslash(b: array<char>, ghost p: nat, q: nat, ghost e: nat, ghost s: string)
    requires Unescaping(b, p, q, e, s) && b[q] == '\\'
    modifies b
    ensures b[e] == NUL && q < e
    ensures if q + 1 == e then Unquote(s).None? else Unescaping(b, p, q + 1, e - 1, s)
    ensures forall i :: 0 <= i < b.Length && !(q <= i < e) ==> b[i] == old(b[i])
  {
    hide Unquote, Prepend;
    ghost var front, rest := b[p..q], b[q..e];
    Protected(front, rest, s);
    var after := End(b, q, e);
    assert after == e;
    Delete(b, q, after);
    assert b[p..q] == front && b[q..e - 1] == rest[1..];
    if q + 1 < e {
      Dropped(b, p, q, e, front, rest);
    }
  }

  lemma Dropped(b: array<char>, p: nat, q: nat, e: nat, front: string, rest: string)
    requires p <= q && q + 1 < e <= b.Length && |rest| == e - q && NUL !in front && NUL !in rest
    requires b[p..q] == front && b[q..e - 1] == rest[1..]
    ensures b[p..q + 1] == front + [rest[1]] && b[q + 1..e - 1] == rest[2..] && NUL !in b[p..e - 1]
  {
    assert rest[2..] == rest[1..][1..];
    assert b[q] == b[q..e - 1][0];
    assert b[q + 1..e - 1] == b[q..e - 1][1..];
    assert b[p..e - 1] == front + rest[1..];
  }

  /** The loop over a quoted string in conf_set_sym_val: backslashes are squeezed out of the
      buffer, and the closing quote becomes the terminator. A backslash at the very end makes
      the loop go on behind the terminator it has moved, but there the old one still stands. */
  method Unescape(b: array<char>, p: nat, ghost end: nat) returns (ok: bool)
    requires Ends(b, p, end)
    modifies b
    ensures ok == Unquote(old(b[p..end])).Some?
    ensures ok ==> CStr(b, p) == Unquote(old(b[p..end])).value
    ensures b[end] == NUL && forall i :: 0 <= i < b.Length && !(p <= i <= end) ==> b[i] == old(b[i])
  {
    hide Unquote, Prepend;
    ghost var s, e: nat, lost := b[p..end], end, false;
    var q := p;
    PrependTwice("", "", Unquote(s));
    assert b[p..p] == "";
    while true
      invariant p <= q <= end && b[end] == NUL
      invariant if lost then b[q] == NUL && Unquote(s).None? else Unescaping(b, p, q, e, s) && e <= end
      invariant forall i :: 0 <= i < b.Length && !(p <= i <= end) ==> b[i] == old(b[i])
      decreases end - q
    {
      ghost var from := q;
      q := StrPBrk(b, q, if lost then end else e);
      if !lost {
        Skipped(b, p, from, q, e, s);
        Remaining(b[p..q], b[q..e], s);
      }
      if b[q] == NUL {
        return false;
      }
      if b[q] == '"' {
        ghost var front := b[p..q];
        b[q] := NUL;
        assert b[p..q] == front;
        EndsCStr(b, p, q);
        return true;
      }
      DropBackslash(b, p, q, e, s);
      lost := q + 1 == e;
      e := e - 1;
      q := q + 1;
    }
  }

  /** The loop stops at the end of the string, or at the closing quote. */
  lemma Remaining(front: string, t: string, s: string)
    requires Unquote(s) == Prepend(front, Unquote(t))
    ensures t == "" ==> Unquote(s).None?
    ensures t != "" && t[0] == '"' ==> Unquote(s) == Some(front)
  {
    assert front + "" == front;
  }

  // ----- escaping -----

  /** How many characters get a backslash. */
  function Specials(s: string): nat
  {
    if s == "" then 0 else (if Special(s[0]) then 1 else 0) + Specials(s[1..])
  }

  lemma {:induction false} EscapeConcat(a: string, b: string)
    ensures Escape(a + b) == Escape(a) + Escape(b) && Specials(a + b) == Specials(a) + Specials(b)
    decreases |a|
  {
    if a == "" {
      assert a + b == b;
    } else {
      assert (a + b)[1..] == a[1..] + b;
      EscapeConcat(a[1..], b);
    }
  }

  lemma {:induction false} EscapeLength(s: string)
    ensures |Escape(s)| == |s| + Specials(s)
  {
    if s != "" {
      EscapeLength(s[1..]);
    }
  }

  lemma EscapeOne(c: char)
    ensures Escape([c]) == (if Special(c) then ['\\', c] else [c]) && Specials([c]) == if Special(c) then 1 else 0
    ensures Escape("") == "" && Specials("") == 0
  {
    assert [c][1..] == "";
  }

  /** sym_escape_string_value: the room is counted first and then used up to the last byte. */
  method EscapeStringValue(v: string) returns (res: array<char>)
    requires NUL !in v
    ensures fresh(res) && res[..] == Quoted(v) + [NUL]
  {
    hide Escape, Specials;
    EscapeLength(v);
    assert v[..|v|] == v;
    EscapeOne('a');
    assert v[..0] == "";
    var reslen := |v| + 3;
    var p := 0;
    while p < |v|
      invariant p <= |v| && reslen == |v| + 3 + Specials(v[..p])
    {
      EscapeOne(v[p]);
      EscapeConcat(v[..p], [v[p]]);
      assert v[..p + 1] == v[..p] + [v[p]];
      if Special(v[p]) {
        reslen := reslen + 1;
      }
      p := p + 1;
    }
    res := new char[reslen];
    res[0] := '"';
    var n := 1;
    p := 0;
    while p < |v|
      invariant p <= |v| && n == 1 + |Escape(v[..p])| <= reslen - 2 && res[..n] == "\"" + Escape(v[..p])
    {
      EscapeOne(v[p]);
      EscapeConcat(v[..p], [v[p]]);
      assert v[..p + 1] == v[..p] + [v[p]];
      EscapeConcat(v[..p + 1], v[p + 1..]);
      assert v == v[..p + 1] + v[p + 1..];
      if Special(v[p]) {
        res[n] := '\\';
        n := n + 1;
      }
      res[n] := v[p];
      n := n + 1;
      p := p + 1;
    }
    res[n] := '"';
    res[n + 1] := NUL;
  }

  // ----- reading lines -----

  /** sym_string_valid. */
  method StringValid(k: SymType, s: string) returns (ok: bool)
    ensures ok == ValidText(k, s)
  {
    var i := 0;
    match k {
      case Str => return true;
      case Int =>
        if s != "" && s[0] == '-' {
          i := 1;
        }
        ghost var d := WithoutSign(s);
        assert d == s[i..];
        if i == |s| {
          return false;
        }
        assert d[0] == s[i];
        if !Digit(s[i]) {
          return false;
        }
        if s[i] == '0' && i + 1 < |s| {
          return false;
        }
        var from := i;
        while i < |s|
          invariant from <= i <= |s| && forall j :: from <= j < i ==> Digit(s[j])
        {
          if !Digit(s[i]) {
            assert d[i - from] == s[i];
            return false;
          }
          i := i + 1;
        }
        return true;
      case Hex =>
        if |s| >= 2 && s[0] == '0' && (s[1] == 'x' || s[1] == 'X') {
          i := 2;
        }
        ghost var d := WithoutPrefix(s);
        assert d == s[i..];
        var from := i;
        if i == |s| {
          return false;
        }
        while i < |s|
          invariant from <= i <= |s| && forall j :: from <= j < i ==> HexDigit(s[j])
        {
          if !HexDigit(s[i]) {
            assert d[i - from] == s[i];
            return false;
          }
          i := i + 1;
        }
        return true;
      case _ => return false;
    }
  }

  /** A terminator ends a string wherever the buffer goes on behind it. */
  lemma LineCStr(b: array<char>, i: nat, n: nat)
    requires i <= n < b.Length && b[n] == NUL
    ensures CStr(b, i) == CString(b[i..n])
  {
    EndAt(b, i, n);
    var s := b[i..n];
    var k := Index(b[i..], NUL);
    assert s[..k] == b[i..i + k];
    if k < |s| {
      IndexUnique(s, NUL, k);
    } else {
      IndexNone(s, NUL);
    }
  }

  /** Comparing with a text that has no NUL never looks behind the terminator. */
  lemma MatchesLine(b: array<char>, i: nat, n: nat, text: string)
    requires i <= n < b.Length && b[n] == NUL && NUL !in text
    ensures StartsWith(b[i..], text) <==> StartsWith(b[i..n], text)
    ensures StartsWith(b[i..], text) <==> StartsWith(CStr(b, i), text)
  {
    EndAt(b, i, n);
    var k := Index(b[i..], NUL);
    var s := CStr(b, i);
    assert k < |text| ==> text[k] != NUL && b[i + k] == NUL;
    if StartsWith(b[i..], text) {
      assert forall j :: 0 <= j < |text| ==> b[i + j] == text[j] by {
        forall j | 0 <= j < |text|
          ensures b[i + j] == text[j]
        {
          assert b[i..][..|text|][j] == b[i + j];
        }
      }
      assert s[..|text|] == b[i..][..|text|] && b[i..n][..|text|] == b[i..][..|text|];
    }
    if StartsWith(s, text) {
      assert b[i..][..|text|] == s[..|text|];
    }
    if StartsWith(b[i..n], text) {
      assert b[i..][..|text|] == b[i..n][..|text|];
    }
  }

  class Reader {
    const garbage: nat -> char // what newly allocated memory holds
    var input: string          // what has not been read from the file yet
    var line: array<char>      // the line buffer
    var state: State           // the symbols

    /** The last byte of the buffer ends whatever string stands before it. */
    predicate Backed()
      reads this`line, line
    {
      line.Length > 0 ==> line[line.Length - 1] == NUL
    }

    constructor (input: string, state: State, garbage: nat -> char)
      ensures this.input == input && this.state == state && fresh(line) && Backed()
    {
      this.input, this.state, this.garbage := input, state, garbage;
      line := new char[0];
    }

    /** add_byte: the buffer grows when it is full. What new memory holds is arbitrary, but for a
        NUL at its end. */
    method AddByte(c: char, slen: nat)
      requires slen <= line.Length
      requires slen < line.Length - 1 ==> Backed()
      modifies this`line, line
      ensures slen < line.Length && line[slen] == c && line[..slen] == old(line[..slen])
      ensures if slen < old(line.Length) then line == old(line) else fresh(line)
      ensures slen < old(line.Length) ==> line[slen + 1..] == old(line[slen + 1..])
      ensures c == NUL || slen < line.Length - 1 ==> Backed()
      ensures slen >= old(line.Length) ==> line.Length >= 32
      ensures slen == 0 == old(line.Length) ==> line[2..] == Fresh(garbage)
    {
      var newSize := slen + 1;
      if newSize > line.Length {
        newSize := (newSize + 15) * 2;
        var longer := new char[newSize](i => if i == newSize - 1 then NUL else garbage(i));
        var k := 0;
        while k < line.Length
          invariant k <= line.Length && longer[..k] == line[..k] && longer[newSize - 1] == NUL
          invariant forall i :: line.Length <= i < newSize - 1 ==> longer[i] == garbage(i)
          modifies longer
        {
          longer[k] := line[k];
          k := k + 1;
        }
        assert slen == 0 == line.Length ==> longer[2..] == Fresh(garbage);
        line := longer;
      }
      line[slen] := c;
    }

    /** compat_getline: one line with its newline and a terminator behind it, or -1 at the end. A
        line that fits leaves the rest of the buffer as it was. */
    method GetLine() returns (n: int)
      requires Backed() && (line.Length == 0 || line.Length >= 32)
      modifies this`line, this`input, line
      ensures Backed() && (line == old(line) || fresh(line)) && line.Length >= 32
      ensures var l := FirstLine(old(input));
              && input == old(input)[|l|..] && n == (if l == "" then -1 else |l|)
              && Terminated(l, old(line[..]))
              && (|l| < old(line.Length) ==> line == old(line))
    {
      hide Filled, Terminated;
      ghost var text, buffer := input, line[..];
      var slen := 0;
      NothingFilled(text);
      while input != ""
        invariant slen <= |text| && input == text[slen..] && '\n' !in text[..slen]
        invariant Filled(text, slen, buffer) && (line == old(line) || fresh(line))
        invariant slen <= |buffer| ==> line == old(line)
        decreases |input|
      {
        var c := input[0];
        input := input[1..];
        AddNext(c, slen, text, buffer);
        slen := slen + 1;
        if c == '\n' {
          break;
        }
      }
      LineSoFar(text, slen);
      AddEnd(slen, text, buffer);
      n := if slen == 0 then -1 else slen;
    }

    /** The line buffer with a line and its terminator. */
    ghost predicate Terminated(l: string, buffer: seq<char>)
      reads this`line, line
    {
      && Backed() && line.Length >= 32
      && |l| < line.Length && line[..|l|] == l && line[|l|] == NUL
      && (|l| < |buffer| ==> line.Length == |buffer| && line[|l| + 1..] == buffer[|l| + 1..])
      && (|l| == 1 && buffer == [] ==> line[2..] == Fresh(garbage))
    }

    lemma NothingFilled(text: string)
      requires Backed() && (line.Length == 0 || line.Length >= 32)
      ensures Filled(text, 0, line[..])
    {
    }

    /** The terminator. */
    method AddEnd(slen: nat, ghost text: string, ghost buffer: seq<char>)
      requires slen <= |text| && Filled(text, slen, buffer)
      modifies this`line, line
      ensures Terminated(text[..slen], buffer) && Backed() && line.Length >= 32
      ensures line == old(line) || fresh(line)
      ensures slen < |buffer| ==> line == old(line)
    {
      hide Fresh;
      ghost var back := line[slen..];
      AddByte(NUL, slen);
      assert slen < |buffer| ==> buffer[slen + 1..] == back[1..];
      assert slen < |buffer| ==> back[1..] == old(line[slen + 1..]);
      assert slen == 0 ==> |buffer| == old(line.Length);
    }

    /** The line buffer with the first characters of the text; if they fit, the bytes behind them are
        those that were there before. */
    ghost predicate Filled(text: string, slen: nat, buffer: seq<char>)
      reads this`line, line
    {
      && (buffer == [] || |buffer| >= 32)
      && slen <= |text| && slen <= line.Length && line[..slen] == text[..slen]
      && (slen < line.Length ==> Backed())
      && (if slen == 0 then line[..] == buffer else line.Length >= 32)
      && (slen <= |buffer| ==> line.Length == |buffer| && line[slen..] == buffer[slen..])
      && (slen == 1 && buffer == [] ==> line[2..] == Fresh(garbage))
    }

    /** One more character. */
    method AddNext(c: char, slen: nat, ghost text: string, ghost buffer: seq<char>)
      requires slen < |text| && c == text[slen] && Filled(text, slen, buffer)
      modifies this`line, line
      ensures Filled(text, slen + 1, buffer)
      ensures line == old(line) || fresh(line)
      ensures slen < old(line.Length) ==> line == old(line)
    {
      hide Fresh;
      ghost var front, back := line[..slen], line[slen..];
      AddByte(c, slen);
      assert text[..slen + 1] == text[..slen] + [c] && line[..slen + 1] == line[..slen] + [line[slen]];
      assert slen < |buffer| ==> buffer[slen + 1..] == back[1..];
      assert slen < |buffer| ==> back[1..] == old(line[slen + 1..]);
      assert slen == 0 ==> |buffer| == old(line.Length);
    }

    /** conf_set_sym_val. */
    method SetSymVal(name: string, p: nat, ghost end: nat)
      requires name in state.table && Ends(line, p, end) && Backed()
      modifies this`state, line
      ensures Backed() && forall i :: 0 <= i < p ==> line[i] == old(line[i])
      ensures var e := old(state.table[name]);
              state == old(state).(table := old(state.table)[name := SetValue(e, old(CStr(line, p)))])
    {
      ghost var text := CStr(line, p);
      EndsCStr(line, p, end);
      var e := state.table[name];
      var c := line[p];
      assert if p < end then text != "" && text[0] == c else text == "" && c == NUL;
      match e.kind {
        case Tri =>
          if c == 'm' {
            e := e.(tri := MOD, known := true);
          } else if c == 'y' {
            e := e.(tri := YES, known := true);
          } else if c == 'n' {
            e := e.(tri := NO, known := true);
          }
        case Boolean =>
          if c == 'y' {
            e := e.(tri := YES, known := true);
          } else if c == 'n' {
            e := e.(tri := NO, known := true);
          }
        case Other =>
          if c != '"' {
            e := e.(kind := Str, val := Some(CStr(line, p)), known := true);
          }
        case Str =>
          if c == '"' {
            assert line[p + 1..end] == text[1..];
            var ok := Unescape(line, p + 1, end);
            if ok {
              e := e.(val := Some(CStr(line, p + 1)), known := true);
            }
          }
        case Unknown =>
        case _ =>
          var ok := StringValid(e.kind, CStr(line, p));
          if ok {
            e := e.(val := Some(CStr(line, p)), known := true);
          }
      }
      state := state.(table := state.table[name := e]);
    }

    /** What a line without value does. */
    method MarkUnset(name: string)
      modifies this`state
      ensures state == Apply(old(state), Unset(name))
    {
      if ConstantName(name) {
        return;
      }
      if name !in state.table {
        state := state.(changes := state.changes + 1);
        return;
      }
      var e := state.table[name];
      if Logic(e.kind) {
        state := state.(table := state.table[name := e.(tri := NO, known := true)]);
      } else {
        assert state.table[name := e] == state.table;
      }
    }

    /** What a line with a value does. */
    method Store(name: string, p: nat, ghost end: nat)
      requires Ends(line, p, end) && Backed()
      modifies this`state, line
      ensures Backed() && forall i :: 0 <= i < p ==> line[i] == old(line[i])
      ensures state == Apply(old(state), Assign(name, old(CStr(line, p))))
    {
      if ConstantName(name) {
        return;
      }
      if name !in state.table {
        state := state.(changes := state.changes + 1);
        return;
      }
      SetSymVal(name, p, end);
    }

    /** Cuts off the newline and a carriage return before it. */
    method CutLine(p: nat, ghost limit: nat)
      requires 0 < p <= limit < line.Length && line[limit] == NUL && line[p - 1] == NUL && Backed()
      modifies line
      ensures Backed()
      ensures CStr(line, p) == Chomp(old(CStr(line, p)))
      ensures line[limit] == NUL && forall i :: 0 <= i < p ==> line[i] == old(line[i])
    {
      hide CString;
      ghost var s := CStr(line, p);
      StringIn(line, p, limit);
      var p2, found := StrChr(line, p, '\n', limit);
      if found {
        ghost var k := p2 - p;
        assert k > 0 ==> s[k - 1] == line[p2 - 1];
        Cut(line, p, p2, limit);
        p2 := p2 - 1;
        if line[p2] == '\r' {
          Cut(line, p, p2, limit);
          assert s[..k][..k - 1] == s[..k - 1];
        }
      }
    }

    /** The name and the rest of a line that may say that a symbol is not set, from i on. */
    method ReadUnset(i: nat)
      requires i < line.Length && Backed()
      modifies this`state, line
      ensures state == Apply(old(state), UnsetOf(old(CStr(line, i)))) && Backed()
      ensures UnsetOf(CStr(line, i)) == Nothing
    {
      hide CString, Apply, Index;
      NothingApplied(state);
      ghost var limit := line.Length - 1;
      StringIn(line, i, limit);
      var p, found := StrChr(line, i, ' ', limit);
      if !found {
        return;
      }
      ghost var tail := line[p + 1..];
      Cut(line, i, p, limit);
      assert line[p + 1..] == tail;
      var same := Matches(line, p + 1, "is not set");
      MatchesLine(line, p + 1, limit, "is not set");
      if same {
        MarkUnset(CStr(line, i));
      }
    }

    /** The name and the value of a line, from i on. */
    method ReadValue(i: nat)
      requires i < line.Length && Backed()
      modifies this`state, line
      ensures state == Apply(old(state), AssignOf(old(CStr(line, i)))) && Backed()
      ensures forall k :: 0 <= k < i ==> line[k] == old(line[k])
    {
      hide CString, Apply, Chomp, Index;
      NothingApplied(state);
      ghost var limit := line.Length - 1;
      StringIn(line, i, limit);
      var p, found := StrChr(line, i, '=', limit);
      if !found {
        return;
      }
      ghost var tail := line[p + 1..];
      Cut(line, i, p, limit);
      assert line[p + 1..] == tail;
      CutValue(i, p + 1);
      EndAt(line, p + 1, limit);
      Store(CStr(line, i), p + 1, p + 1 + Index(line[p + 1..], NUL));
    }

    /** Cutting the value leaves the name before it alone. */
    method CutValue(i: nat, p: nat)
      requires i < p < line.Length && line[p - 1] == NUL && Backed()
      modifies line
      ensures CStr(line, p) == Chomp(old(CStr(line, p))) && CStr(line, i) == old(CStr(line, i)) && Backed()
      ensures forall k :: 0 <= k < i ==> line[k] == old(line[k])
    {
      hide CString, Chomp, Index;
      EndAt(line, i, p - 1);
      ghost var end := i + |CStr(line, i)|;
      ghost var name := line[i..end];
      CutLine(p, line.Length - 1);
      assert line[i..end] == name;
      EndsCStr(line, i, end);
    }

    /** A line that starts with a hash. If there is nothing behind the hash, what is compared with
        the prefix is what stands behind the terminator. Afterwards a bare hash says nothing. */
    method ReadComment(n: nat)
      requires 0 < n < line.Length && line[n] == NUL && line[0] == '#' && Backed()
      modifies this`state, line
      ensures state == Apply(old(state), if n == 1 then Comment(old(line[2..])) else MeaningOf(old(line[..n])))
      ensures Backed() && Comment(line[2..]) == Nothing
    {
      hide CString, Apply, MeaningOf, Comment, UnsetOf;
      NothingApplied(state);
      CommentMeaning(line, n);
      CommentCStr(line);
      var same := Matches(line, 2, PREFIX);
      if same {
        PrefixInside(line, 2);
        ReadUnset(9);
        CommentCStr(line);
      }
    }

    /** A line with a value. What stands behind its first two bytes is not taken for a comment
        later, unless it could have been before. */
    method ReadAssignment(n: nat)
      requires 0 < n < line.Length && line[n] == NUL && line[0] != '#' && Backed()
      modifies this`state, line
      ensures state == Apply(old(state), MeaningOf(old(line[..n])))
      ensures Backed() && Comment(line[2..]) == old(Comment(line[2..]))
    {
      hide CString, Apply, MeaningOf, AssignOf, UnsetOf;
      NothingApplied(state);
      ValueMeaning(line, n);
      var same := Matches(line, 0, PREFIX);
      if same {
        PrefixInside(line, 0);
        assert line[2] == line[0..][..|PREFIX|][2] == 'N';
        ReadValue(7);
        assert line[2..][0] == 'N' && PREFIX[0] == 'C';
      }
    }

    /** The body of the loop of conf_read_simple, on a line of n characters. */
    method ReadLine(n: nat)
      requires 0 < n < line.Length && line[n] == NUL && Backed()
      modifies this`state, line
      ensures var l := old(line[..n]);
              && state == Apply(old(state), if l == "#" then Comment(old(line[2..])) else MeaningOf(l))
              && (l != "#" ==> Comment(line[2..]) == After(old(Comment(line[2..])), l))
      ensures Backed()
    {
      hide Apply, MeaningOf, Comment;
      ghost var l := line[..n];
      assert l[0] == line[0];
      if line[0] == '#' {
        assert n == 1 ==> l == "#";
        ReadComment(n);
      } else {
        if n > 1 { LineRest(line, n); }
        ReadAssignment(n);
      }
    }

    /** Between two turns of the loop: what is still to come has the effect in the present state that
        the text has from the start, if a bare hash would say m; and that is what it would find in
        the buffer. */
    ghost predicate Reading(text: string, start: State, m: Meaning)
      reads this, line
    {
      && Backed() && (line.Length == 0 || line.Length >= 32)
      && (input != "" ==> m == Comment(if line.Length == 0 then Fresh(garbage) else line[2..]))
      && ReadLinesFrom(start, text, Comment(Fresh(garbage))) == ReadLinesFrom(state, input, m)
    }

    /** One turn of the loop of conf_read_simple. */
    method NextLine(ghost text: string, ghost start: State, ghost m: Meaning) returns (more: bool, ghost m': Meaning)
      requires Reading(text, start, m)
      modifies this`line, this`input, this`state, line
      ensures line == old(line) || fresh(line)
      ensures if more then |input| < |old(input)| && Reading(text, start, m')
              else input == "" && state == ReadLinesFrom(start, text, Comment(Fresh(garbage)))
    {
      hide ReadLinesFrom, FirstLine, Comment, Fresh, Apply, MeaningOf, LeftOver;
      ghost var before := input;
      FromStep(state, before, m);
      m' := m;
      var n := GetLine();
      more := n != -1;
      if more {
        ghost var l := FirstLine(before);
        FirstLineBare(before);
        assert n == 1 ==> m == Comment(line[2..]) by {
          if n == 1 && old(line.Length) > 0 { assert line[2..] == old(line[2..]); }
        }
        ReadLine(n);
        m' := After(m, l);
      }
    }

    /** conf_read_simple, on a file that has been opened. It has the effect of the lines of the text;
        if the last one is a bare hash, that one says what its predecessors have left in the
        buffer. */
    method ReadSimple()
      modifies this`line, this`input, this`state
      ensures input == "" && state == ReadIn(old(state), old(input), garbage)
    {
      hide Reset, ReadLinesFrom, Comment, Fresh;
      line := new char[0];
      ghost var text, start := input, Reset(state);
      state := Reset(state);
      ghost var m := Comment(Fresh(garbage));
      while true
        invariant fresh(line)
        invariant Reading(text, start, m)
        decreases |input|
      {
        var more;
        more, m := NextLine(text, start, m);
        if !more {
          break;
        }
      }
    }
  }

  /** A file on which it does matter, whatever new memory holds: neither of its two lines means
      anything, but FOO has a value in the end. */
  method ReadLeftBehind(s: State, garbage: nat -> char) returns (r: Reader)
    requires "FOO" in s.table && s.table["FOO"].kind == Boolean
    ensures Read(s, LeftBehind() + "#") == Reset(s) && r.state == Apply(Reset(s), Unset("FOO")) != Reset(s)
  {
    r := new Reader(LeftBehind() + "#", s, garbage);
    r.ReadSimple();
    BareHashUnsets(s, garbage);
  }

  lemma LineSoFar(text: string, n: nat)
    requires n <= |text|
    requires if n > 0 && text[n - 1] == '\n' then '\n' !in text[..n - 1] else n == |text| && '\n' !in text
    ensures FirstLine(text) == text[..n]
  {
    if n > 0 && text[n - 1] == '\n' { IndexUnique(text, '\n', n - 1); } else { IndexNone(text, '\n'); }
  }

  lemma FromStep(s: State, text: string, m: Meaning)
    ensures text == "" ==> ReadLinesFrom(s, text, m) == s
    ensures text != "" ==>
              var l := FirstLine(text);
              ReadLinesFrom(s, text, m) ==
              ReadLinesFrom(Apply(s, if l == "#" then m else MeaningOf(l)), text[|l|..], After(m, l))
  {
    hide Apply, MeaningOf, LeftOver;
  }

  /** The prefix does not reach behind a terminator. */
  lemma PrefixInside(b: array<char>, i: nat)
    requires i <= b.Length && StartsWith(b[i..], PREFIX) && b.Length > 0 && b[b.Length - 1] == NUL
    ensures i + |PREFIX| < b.Length
  {
    assert b[i..][..|PREFIX|][|PREFIX| - 1] == b[i + |PREFIX| - 1];
  }

  /** What stands in the buffer behind the first two bytes, as a comment. */
  lemma CommentCStr(b: array<char>)
    requires b.Length >= 2
    ensures Comment(b[2..]) == if StartsWith(b[2..], PREFIX) then UnsetOf(CStr(b, 2 + |PREFIX|)) else Nothing
  {
    hide UnsetOf, CString;
    assert StartsWith(b[2..], PREFIX) ==> b[2..][|PREFIX|..] == b[2 + |PREFIX|..];
  }

  /** The terminator of the line ends it. */
  lemma LineRest(b: array<char>, n: nat)
    requires 1 < n < b.Length && b[n] == NUL
    ensures Comment(b[2..]) == Comment(b[..n][2..])
  {
    hide UnsetOf, CString;
    MatchesLine(b, 2, n, PREFIX);
    var l := b[..n];
    assert l[2..] == b[2..n];
    CommentCStr(b);
    if StartsWith(b[2..], PREFIX) {
      assert l[2..][|PREFIX|..] == b[2 + |PREFIX|..n];
      LineCStr(b, 2 + |PREFIX|, n);
    }
  }

  lemma ValueMeaning(b: array<char>, n: nat)
    requires 0 < n < b.Length && b[n] == NUL && b[0] != '#'
    ensures StartsWith(b[0..], PREFIX) <==> StartsWith(b[..n], PREFIX)
    ensures MeaningOf(b[..n]) ==
            if StartsWith(b[0..], PREFIX) then AssignOf(CStr(b, |PREFIX|)) else Nothing
  {
    hide AssignOf, CString;
    var l := b[..n];
    MatchesLine(b, 0, n, PREFIX);
    assert l == b[0..n] && l[0] == b[0];
    if StartsWith(l, PREFIX) {
      assert l[|PREFIX|..] == b[|PREFIX|..n];
      LineCStr(b, |PREFIX|, n);
    }
  }

  lemma CommentMeaning(b: array<char>, n: nat)
    requires 0 < n < b.Length && b[n] == NUL && b[0] == '#'
    ensures n > 1 ==> MeaningOf(b[..n]) == Comment(b[2..])
  {
    hide Comment;
    if n > 1 { LineRest(b, n); }
  }

  lemma NothingApplied(s: State)
    ensures Apply(s, Nothing) == s
  {
  }

  lemma StringIn(b: array<char>, i: nat, limit: nat)
    requires i <= limit < b.Length && b[limit] == NUL
    ensures i + |CStr(b, i)| <= limit && forall k :: 0 <= k < |CStr(b, i)| ==> CStr(b, i)[k] == b[i + k]
  {
    EndAt(b, i, limit);
  }
}
