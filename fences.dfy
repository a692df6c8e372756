/** The clean-up the server applies to the model's reply before parsing it:
    `text.trim()`, then `.replace(/```json|```/g, "")`, then `.trim()`. */
module Fences {
  import opened Text

  const Fence: string := "```"
  const JsonFence: string := "```json"

  /** `t` holds a triple backtick starting at index `i`. */
  predicate FenceAt(t: string, i: int) {
    0 <= i && i + 3 <= |t| && t[i] == '`' && t[i + 1] == '`' && t[i + 2] == '`'
  }

  predicate FenceFree(t: string) {
    forall i :: 0 <= i < |t| ==> !FenceAt(t, i)
  }

  predicate BacktickFree(t: string) {
    forall i :: 0 <= i < |t| ==> t[i] != '`'
  }

  /** The global replacement of /```json|```/ by "": one left-to-right scan
      that, at each position, removes "```json" if it starts there, otherwise
      "```" if that starts there, and otherwise keeps the character and moves
      on. Removed occurrences never overlap. */
  function StripFences(s: string): (r: string)
    ensures |r| <= |s|
    decreases |s|
  {
    if s == [] then []
    else if FenceAt(s, 0) then
      if |s| >= 7 && s[3..7] == "json" then StripFences(s[7..]) else StripFences(s[3..])
    else [s[0]] + StripFences(s[1..])
  }

  /** The text handed to `JSON.parse` for a reply `raw`. */
  function Clean(raw: string): string {
    Trim(StripFences(Trim(raw)))
  }

  /** A scan position holding no triple backtick keeps its character. */
  lemma StripFencesKeeps(s: string)
    requires s != [] && !FenceAt(s, 0)
    ensures StripFences(s) == [s[0]] + StripFences(s[1..])
  {
  }

  /** A kept backtick is never followed by two more in the output: the
      character after it was not a backtick, or the one after that was not,
      and the scan keeps both. */
  lemma {:induction false} StripFencesNoFence(s: string)
    ensures FenceFree(StripFences(s))
    decreases |s|
  {
    if |s| >= 7 && s[..7] == JsonFence {
      StripFencesNoFence(s[7..]);
    } else if |s| >= 3 && s[..3] == Fence {
      StripFencesNoFence(s[3..]);
    } else if s != [] {
      var tail := StripFences(s[1..]);
      StripFencesNoFence(s[1..]);
      StripFencesKeeps(s);
      var r := [s[0]] + tail;
      forall i | 0 <= i < |r| ensures !FenceAt(r, i) {
        if i > 0 {
          assert !FenceAt(tail, i - 1);
        } else if s[0] == '`' && |s| >= 2 && s[1] == '`' {
          // then the character after the pair is not a backtick, and is kept
          var t := s[1..];
          assert !FenceAt(t, 0);
          StripFencesKeeps(t);
          if |s| >= 3 {
            assert s[2] != '`';
            var u := s[2..];
            assert u[0] == s[2] && !FenceAt(u, 0);
            StripFencesKeeps(u);
            assert r[2] == s[2];
          }
        } else if s[0] == '`' && |s| >= 2 {
          assert s[1..] != [] && !FenceAt(s[1..], 0);
          StripFencesKeeps(s[1..]);
          assert r[1] == s[1];
        }
      }
    }
  }

  /** Stripping changes a string exactly when it holds a triple backtick. */
  lemma {:induction false} StripFencesFixpoint(s: string)
    ensures StripFences(s) == s <==> FenceFree(s)
    decreases |s|
  {
    if FenceFree(s) {
      if s != [] {
        StripFencesKeeps(s);
        assert FenceFree(s[1..]) by {
          forall i | 0 <= i < |s[1..]| ensures !FenceAt(s[1..], i) {
            assert !FenceAt(s, i + 1);
          }
        }
        StripFencesFixpoint(s[1..]);
      }
    } else {
      StripFencesNoFence(s);
    }
  }

  /** Stripping is idempotent. */
  lemma StripFencesIdempotent(s: string)
    ensures StripFences(StripFences(s)) == StripFences(s)
  {
    StripFencesNoFence(s);
    StripFencesFixpoint(StripFences(s));
  }

  /** A leading character other than a backtick is kept. */
  lemma StripFencesCons(c: char, t: string)
    requires c != '`'
    ensures StripFences([c] + t) == [c] + StripFences(t)
  {
    var s := [c] + t;
    assert s[0] == c && s[1..] == t;
    StripFencesKeeps(s);
  }

  /** A backtick-free prefix passes through the scan untouched. */
  lemma {:induction false} StripFencesBacktickFreePrefix(a: string, b: string)
    requires BacktickFree(a)
    ensures StripFences(a + b) == a + StripFences(b)
    decreases |a|
  {
    if a != [] {
      var t := a[1..] + b;
      assert a + b == [a[0]] + t by { assert a == [a[0]] + a[1..]; }
      StripFencesCons(a[0], t);
      StripFencesBacktickFreePrefix(a[1..], b);
      assert [a[0]] + (a[1..] + StripFences(b)) == a + StripFences(b) by {
        assert a == [a[0]] + a[1..];
      }
    } else {
      assert a + b == b;
    }
  }

  /** A slice of a string without triple backticks has none either. */
  lemma SliceFenceFree(t: string, i: int, j: int)
    requires FenceFree(t) && 0 <= i <= j <= |t|
    ensures FenceFree(t[i..j])
  {
    forall k | 0 <= k < |t[i..j]| ensures !FenceAt(t[i..j], k) {
      assert !FenceAt(t, i + k);
    }
  }

  /** No triple backtick survives the clean-up. */
  lemma CleanFenceFree(raw: string)
    ensures FenceFree(Clean(raw))
  {
    var t := StripFences(Trim(raw));
    StripFencesNoFence(Trim(raw));
    TrimIsCore(t);
    var i, j :| 0 <= i <= j <= |t| && Trim(t) == t[i..j];
    SliceFenceFree(t, i, j);
  }

  /** Cleaning a cleaned reply changes nothing. */
  lemma CleanIdempotent(raw: string)
    ensures Clean(Clean(raw)) == Clean(raw)
  {
    var c := Clean(raw);
    CleanFenceFree(raw);
    TrimIdempotent(StripFences(Trim(raw)));
    assert Trim(c) == c;
    StripFencesFixpoint(c);
  }

  /** A reply without backticks is only trimmed. */
  lemma CleanBacktickFree(raw: string)
    requires BacktickFree(raw)
    ensures Clean(raw) == Trim(raw)
  {
    var t := Trim(raw);
    TrimIsCore(raw);
    var i, j :| 0 <= i <= j <= |raw| && t == raw[i..j];
    assert BacktickFree(t);
    StripFencesBacktickFreePrefix(t, []);
    assert t + [] == t;
    TrimIdempotent(raw);
  }

  /** An opening "```json" fence is dropped as a whole. */
  lemma StripFencesJsonFence(rest: string)
    ensures StripFences(JsonFence + rest) == StripFences(rest)
  {
    var s := JsonFence + rest;
    assert s[..7] == JsonFence && s[7..] == rest;
  }

  lemma StripFencesFence()
    ensures StripFences(Fence) == []
  {
    assert Fence[..3] == Fence && Fence[3..] == [];
  }

  /** The scan drops a "```json" opening fence and a "```" closing fence
      around a backtick-free body. */
  lemma StripFencesJsonFenced(body: string)
    requires BacktickFree(body)
    ensures StripFences(JsonFence + body + Fence) == body
  {
    StripFencesJsonFence(body + Fence);
    StripFencesBacktickFreePrefix(body, Fence);
    StripFencesFence();
    assert JsonFence + body + Fence == JsonFence + (body + Fence);
    assert body + [] == body;
  }

  /** A reply wrapped in a "```json" fence around a backtick-free body cleans
      to the trimmed body. */
  lemma CleanJsonFenced(body: string)
    requires BacktickFree(body)
    ensures Clean(JsonFence + body + Fence) == Trim(body)
  {
    var raw := JsonFence + body + Fence;
    assert raw[0] == '`' && raw[|raw| - 1] == '`';
    TrimUnchanged(raw);
    StripFencesJsonFenced(body);
  }
}
