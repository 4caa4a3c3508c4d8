/** `join_path` of scripts/check-route-sync.py, and when it can be regrouped. */
module JoinPath {

  function TrimSlashesEnd(s: string): string {
    if s != "" && s[|s| - 1] == '/' then TrimSlashesEnd(s[..|s| - 1]) else s
  }

  function TrimSlashesStart(s: string): string {
    if s != "" && s[0] == '/' then TrimSlashesStart(s[1..]) else s
  }

  function Join(prefix: string, path: string): string {
    if prefix == "" || prefix == "/" then path
    else if path == "/" then prefix
    else TrimSlashesEnd(prefix) + "/" + TrimSlashesStart(path)
  }

  predicate HasText(s: string) {
    exists i | 0 <= i < |s| :: s[i] != '/'
  }

  // ----- trimming

  lemma {:induction false} TrimStartOfJoined(s: string, t: string)
    requires HasText(s)
    ensures TrimSlashesStart(s + t) == TrimSlashesStart(s) + t
  {
    if s[0] == '/' {
      assert (s + t)[1..] == s[1..] + t;
      TextIsLater(s);
      TrimStartOfJoined(s[1..], t);
    }
  }

  lemma TextIsLater(s: string)
    requires HasText(s) && s[0] == '/'
    ensures HasText(s[1..])
  {
    var i :| 0 <= i < |s| && s[i] != '/';
    assert s[1..][i - 1] != '/';
  }

  lemma TextIsEarlier(s: string)
    requires HasText(s) && s[|s| - 1] == '/'
    ensures HasText(s[..|s| - 1])
  {
    var i :| 0 <= i < |s| && s[i] != '/';
    assert s[..|s| - 1][i] != '/';
  }

  lemma {:induction false} TrimEndOfJoined(s: string, t: string)
    requires HasText(t)
    ensures TrimSlashesEnd(s + t) == s + TrimSlashesEnd(t)
    decreases |t|
  {
    if t[|t| - 1] == '/' {
      assert (s + t)[..|s + t| - 1] == s + t[..|t| - 1];
      TextIsEarlier(t);
      TrimEndOfJoined(s, t[..|t| - 1]);
    }
  }

  lemma {:induction false} TrimKeepsText(s: string)
    requires HasText(s)
    ensures HasText(TrimSlashesStart(s)) && HasText(TrimSlashesEnd(s))
    decreases |s|
  {
    if s[0] == '/' {
      TextIsLater(s);
      TrimKeepsText(s[1..]);
    }
    if s[|s| - 1] == '/' {
      TextIsEarlier(s);
      TrimKeepsText(s[..|s| - 1]);
    }
  }

  /** The two ends can be trimmed in either order. */
  lemma {:induction false} TrimsCommute(s: string)
    requires HasText(s)
    ensures TrimSlashesEnd(TrimSlashesStart(s)) == TrimSlashesStart(TrimSlashesEnd(s))
    decreases |s|
  {
    if s[0] == '/' {
      TextIsLater(s);
      TrimsCommute(s[1..]);
      TrimEndOfJoined(s[..1], s[1..]);
      assert s == s[..1] + s[1..];
      TrimKeepsText(s[1..]);
      assert TrimSlashesEnd(s)[1..] == TrimSlashesEnd(s[1..]);
    } else {
      TrimStartIsIdle(s);
    }
  }

  lemma {:induction false} TrimStartIsIdle(s: string)
    requires s != "" && s[0] != '/'
    ensures TrimSlashesStart(TrimSlashesEnd(s)) == TrimSlashesEnd(s)
    decreases |s|
  {
    if s[|s| - 1] == '/' {
      TrimStartIsIdle(s[..|s| - 1]);
    }
  }

  // ----- what joining gives

  predicate AllSlashes(s: string) {
    forall i | 0 <= i < |s| :: s[i] == '/'
  }

  /** `s` without the slashes it ends in. */
  predicate IsHeadOf(s: string, a: string) {
    a <= s && AllSlashes(s[|a|..]) && (a != "" ==> a[|a| - 1] != '/')
  }

  /** `s` without the slashes it begins with. */
  predicate IsTailOf(s: string, b: string) {
    |b| <= |s| && s[|s| - |b|..] == b && AllSlashes(s[..|s| - |b|]) && (b != "" ==> b[0] != '/')
  }

  lemma {:induction false} TrimmedIsHead(s: string)
    ensures IsHeadOf(s, TrimSlashesEnd(s))
    decreases |s|
  {
    if s != "" && s[|s| - 1] == '/' {
      var a := TrimSlashesEnd(s[..|s| - 1]);
      TrimmedIsHead(s[..|s| - 1]);
      assert s[|a|..] == s[..|s| - 1][|a|..] + "/";
    }
  }

  lemma {:induction false} TrimmedIsTail(s: string)
    ensures IsTailOf(s, TrimSlashesStart(s))
  {
    if s != "" && s[0] == '/' {
      var b := TrimSlashesStart(s[1..]);
      TrimmedIsTail(s[1..]);
      assert s[..|s| - |b|] == "/" + s[1..][..|s| - 1 - |b|];
    }
  }

  lemma OneHead(s: string, a: string, b: string)
    requires IsHeadOf(s, a) && IsHeadOf(s, b)
    ensures a == b
  {
    assert forall i | |a| <= i < |s| :: s[i] == s[|a|..][i - |a|];
    assert forall i | |b| <= i < |s| :: s[i] == s[|b|..][i - |b|];
  }

  lemma OneTail(s: string, a: string, b: string)
    requires IsTailOf(s, a) && IsTailOf(s, b)
    ensures a == b
  {
    assert forall i | 0 <= i < |s| - |a| :: s[i] == s[..|s| - |a|][i];
    assert forall i | 0 <= i < |s| - |b| :: s[i] == s[..|s| - |b|][i];
  }

  /** `joined` is `prefix` and `path` with exactly one slash where they meet. */
  ghost predicate MeetsInOneSlash(prefix: string, path: string, joined: string) {
    exists a, b :: IsHeadOf(prefix, a) && IsTailOf(path, b) && joined == a + "/" + b
  }

  /** An empty or "/" prefix leaves the path as it is, a "/" path leaves the prefix as it is,
      and everything else meets in exactly one slash. */
  lemma JoinExactly(prefix: string, path: string, joined: string)
    ensures joined == Join(prefix, path) <==>
              if prefix == "" || prefix == "/" then joined == path
              else if path == "/" then joined == prefix
              else MeetsInOneSlash(prefix, path, joined)
  {
    TrimmedIsHead(prefix);
    TrimmedIsTail(path);
    hide IsHeadOf, IsTailOf;
    if a, b :| IsHeadOf(prefix, a) && IsTailOf(path, b) && joined == a + "/" + b {
      OneHead(prefix, a, TrimSlashesEnd(prefix));
      OneTail(path, b, TrimSlashesStart(path));
    }
  }

  // ----- associativity

  predicate Regroups(a: string, b: string, c: string) {
    Join(Join(a, b), c) == Join(a, Join(b, c))
  }

  lemma JoinWithText(a: string, b: string)
    requires a != "" && a != "/" && HasText(b)
    ensures Join(a, b) == TrimSlashesEnd(a) + "/" + TrimSlashesStart(b)
    ensures HasText(Join(a, b)) && Join(a, b) != "/"
  {
    TrimKeepsText(b);
    var t := TrimSlashesStart(b);
    var i :| 0 <= i < |t| && t[i] != '/';
    assert Join(a, b)[|TrimSlashesEnd(a)| + 1 + i] == t[i];
  }

  lemma TextIsNoSlash(s: string)
    requires HasText(s)
    ensures s != "" && s != "/"
  {
  }

  /** Joining a third segment to the join of two. */
  lemma JoinLeft(a: string, b: string, c: string)
    requires a != "" && a != "/" && c != "/" && HasText(b)
    ensures Join(Join(a, b), c)
         == TrimSlashesEnd(a) + "/" + TrimSlashesEnd(TrimSlashesStart(b)) + "/" + TrimSlashesStart(c)
  {
    JoinWithText(a, b);
    TextIsNoSlash(Join(a, b));
    TrimKeepsText(b);
    TrimEndOfJoined(TrimSlashesEnd(a) + "/", TrimSlashesStart(b));
  }

  /** Joining a first segment to the join of two. */
  lemma JoinRight(a: string, b: string, c: string)
    requires a != "" && a != "/" && c != "/" && HasText(b)
    ensures Join(a, Join(b, c))
         == TrimSlashesEnd(a) + "/" + TrimSlashesStart(TrimSlashesEnd(b)) + "/" + TrimSlashesStart(c)
  {
    hide TrimSlashesEnd, TrimSlashesStart, HasText;
    TextIsNoSlash(b);
    TrimKeepsText(b);
    var eb, ea, sc := TrimSlashesEnd(b), TrimSlashesEnd(a), TrimSlashesStart(c);
    assert Join(b, c) == eb + ("/" + sc);
    TrimStartOfJoined(eb, "/" + sc);
    TextBefore(eb, "/" + sc);
    TextIsNoSlash(eb + ("/" + sc));
    assert Join(a, eb + ("/" + sc)) == ea + "/" + (TrimSlashesStart(eb) + ("/" + sc));
    assert ea + "/" + (TrimSlashesStart(eb) + ("/" + sc)) == ea + "/" + TrimSlashesStart(eb) + "/" + sc;
  }

  lemma TextBefore(s: string, t: string)
    requires HasText(s)
    ensures HasText(s + t)
  {
    var i :| 0 <= i < |s| && s[i] != '/';
    assert (s + t)[i] != '/';
  }

  lemma RegroupsOverText(a: string, b: string, c: string)
    requires HasText(b)
    ensures Regroups(a, b, c)
  {
    TextIsNoSlash(b);
    if a != "" && a != "/" {
      JoinWithText(a, b);
      if c != "/" {
        hide Join, TrimSlashesEnd, TrimSlashesStart;
        JoinLeft(a, b, c);
        JoinRight(a, b, c);
        TrimsCommute(b);
      }
    }
  }

  /** A prefix chain can be joined in any grouping around a middle segment exactly when
      that segment is "/" or contains something other than slashes. */
  lemma JoinRegroupsExactly(b: string)
    ensures (forall a, c :: Regroups(a, b, c)) <==> b == "/" || HasText(b)
  {
    if HasText(b) {
      forall a, c ensures Regroups(a, b, c) {
        RegroupsOverText(a, b, c);
      }
    } else if b != "/" {
      NoTextTrimsAway(b);
      assert TrimSlashesEnd("a") == "a";
      assert Join("a", b) == "a/";
      if b == "" {
        assert Join("a/", "/") == "a/" && Join("a", Join("", "/")) == "a";
        assert !Regroups("a", b, "/");
      } else {
        assert TrimSlashesEnd("a/") == "a" by { assert "a/"[..1] == "a"; }
        assert Join("a/", "") == "a/";
        assert Join(b, "") == "/";
        assert Join("a", "/") == "a";
        assert !Regroups("a", b, "");
      }
    }
  }

  lemma {:induction false} NoTextTrimsAway(s: string)
    requires !HasText(s)
    ensures TrimSlashesStart(s) == "" && TrimSlashesEnd(s) == ""
    decreases |s|
  {
    if s != "" {
      assert s[0] == '/' && s[|s| - 1] == '/';
      NoTextTrimsAway(s[1..]);
      NoTextTrimsAway(s[..|s| - 1]);
    }
  }
}
