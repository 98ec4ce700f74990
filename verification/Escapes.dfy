/** Wrapping keys in JSON: line breaks escaped by the client, and recovered by the server before it hashes. */
module Escapes {

  /** `replace(/\\n/g, "\n")`: every backslash followed by an n becomes a line break. */
  function Unescape(s: string): string {
    if |s| < 2 then s
    else if s[0] == '\\' && s[1] == 'n' then ['\n'] + Unescape(s[2..])
    else [s[0]] + Unescape(s[1..])
  }

  predicate IsEscapeAt(s: string, i: int) {
    0 <= i < |s| - 1 && s[i] == '\\' && s[i + 1] == 'n'
  }

  /** Somewhere in the text an n follows a backslash. */
  ghost predicate HasEscape(s: string) {
    exists i :: IsEscapeAt(s, i)
  }

  lemma NoEscapeInTail(s: string)
    requires s != [] && !HasEscape(s)
    ensures !HasEscape(s[1..])
  {
    if i :| IsEscapeAt(s[1..], i) { assert IsEscapeAt(s, i + 1); }
  }

  /** A text without a backslash before an n is left as it is. */
  lemma {:induction false} UnescapeLeaves(s: string)
    requires !HasEscape(s)
    ensures Unescape(s) == s
  {
    if |s| < 2 {
    } else {
      assert !IsEscapeAt(s, 0);
      NoEscapeInTail(s);
      UnescapeLeaves(s[1..]);
      assert s == [s[0]] + s[1..];
    }
  }

  lemma UnescapeUnfolds(s: string)
    requires s != [] && !IsEscapeAt(s, 0)
    ensures Unescape(s) == [s[0]] + Unescape(s[1..])
  {
    if |s| == 1 { assert s == [s[0]] + s[1..]; }
  }

  lemma UnescapeChar(c: char, s: string)
    requires !(c == '\\' && s != [] && s[0] == 'n')
    ensures Unescape([c] + s) == [c] + Unescape(s)
  {
    var t := [c] + s;
    assert t[0] == c && t[1..] == s;
    UnescapeUnfolds(t);
  }

  lemma UnescapePair(rest: string, tail: string)
    ensures Unescape(['\\', 'n'] + rest + tail) == ['\n'] + Unescape(rest + tail)
  {
    var s := ['\\', 'n'] + rest + tail;
    assert s[0] == '\\' && s[1] == 'n' && s[2..] == rest + tail;
  }

  lemma Regroup(c: char, u: string, v: string)
    ensures [c] + (u + v) == [c] + u + v
  {}

  /** Pairs do not reach across a cut before anything but an n. */
  lemma {:induction false} UnescapeAppends(a: string, tail: string)
    requires tail != [] ==> tail[0] != 'n'
    ensures Unescape(a + tail) == Unescape(a) + Unescape(tail)
    decreases |a|
  {
    if a == [] {
      assert a + tail == tail;
    } else if |a| >= 2 && a[0] == '\\' && a[1] == 'n' {
      var rest := a[2..];
      assert a == ['\\', 'n'] + rest && rest + [] == rest && a + [] == a;
      UnescapePair(rest, []);
      UnescapePair(rest, tail);
      UnescapeAppends(rest, tail);
      Regroup('\n', Unescape(rest), Unescape(tail));
    } else {
      var rest := a[1..];
      assert a == [a[0]] + rest;
      Regroup(a[0], rest, tail);
      UnescapeChar(a[0], rest);
      UnescapeChar(a[0], rest + tail);
      UnescapeAppends(rest, tail);
      Regroup(a[0], Unescape(rest), Unescape(tail));
    }
  }

  /** Every backslash before an n becomes, with it, one line break, wherever the two stand. */
  lemma UnescapeAtPair(a: string, b: string)
    ensures Unescape(a + (['\\', 'n'] + b)) == Unescape(a) + (['\n'] + Unescape(b))
  {
    var tail := ['\\', 'n'] + b;
    assert tail + [] == tail && b + [] == b;
    UnescapePair(b, []);
    UnescapeAppends(a, tail);
  }

  /** How a client writes a key into JSON: a backslash and an n for every line break. */
  function Escape(s: string): string {
    if s == [] then []
    else (if s[0] == '\n' then ['\\', 'n'] else [s[0]]) + Escape(s[1..])
  }

  lemma EscapeHead(s: string)
    requires s != []
    ensures Escape(s) != []
    ensures Escape(s)[0] == 'n' <==> s[0] == 'n'
  {}

  lemma {:induction false} UnescapeUndoesEscape(s: string)
    requires !HasEscape(s)
    ensures Unescape(Escape(s)) == s
  {
    if s == [] {
    } else {
      var rest := Escape(s[1..]);
      NoEscapeInTail(s);
      UnescapeUndoesEscape(s[1..]);
      assert s == [s[0]] + s[1..];
      if s[0] == '\n' {
        assert Escape(s)[2..] == rest;
      } else {
        assert Escape(s)[1..] == rest;
        if s[0] == '\\' && s[1..] != [] {
          EscapeHead(s[1..]);
          assert !IsEscapeAt(s, 0);
        }
      }
    }
  }

  lemma StaysWithoutEscape(c: char, s: string)
    requires !HasEscape(s) && !(c == '\\' && s != [] && s[0] == 'n')
    ensures !HasEscape([c] + s)
  {
    forall i ensures !IsEscapeAt([c] + s, i) {
      assert !IsEscapeAt(s, i - 1);
    }
  }

  /** Nothing that comes out of `Unescape` has a backslash before an n. */
  lemma {:induction false} UnescapeHasNoEscape(s: string)
    ensures !HasEscape(Unescape(s))
    ensures Unescape(s) != [] && Unescape(s)[0] == 'n' ==> s[0] == 'n'
  {
    if |s| < 2 {
    } else if s[0] == '\\' && s[1] == 'n' {
      UnescapeHasNoEscape(s[2..]);
      StaysWithoutEscape('\n', Unescape(s[2..]));
    } else {
      UnescapeHasNoEscape(s[1..]);
      StaysWithoutEscape(s[0], Unescape(s[1..]));
    }
  }

  /** The server recovers what a client escaped exactly when the client's text had no backslash before an n. */
  lemma UnescapeUndoesEscapeIff(s: string)
    ensures Unescape(Escape(s)) == s <==> !HasEscape(s)
  {
    if HasEscape(s) {
      UnescapeHasNoEscape(Escape(s));
    } else {
      UnescapeUndoesEscape(s);
    }
  }
}
