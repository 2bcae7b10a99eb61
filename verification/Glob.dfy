/** Redis glob patterns, as `SCAN ... MATCH` reads them, and the pattern that cache
    invalidation sends. `Matches` is the assumption about Redis; the rest is about our code. */
module Glob {

  const PREFIX := "stats-cache"

  /** Whether `c` has a meaning of its own in a glob pattern. */
  predicate Meta(c: char) {
    c == '*' || c == '?' || c == '[' || c == ']' || c == '\\'
  }

  /** The character class that starts after a `[` : whether it holds `c`, and how many
      pattern characters it takes, its `]` included. An unclosed class ends with the pattern. */
  function ClassHit(p: string, c: char): (r: (bool, nat))
    ensures r.1 <= |p|
  {
    if p == "" then (false, 0)
    else if p[0] == '\\' && |p| >= 2 then
      var rest := ClassHit(p[2..], c);
      (p[1] == c || rest.0, 2 + rest.1)
    else if p[0] == ']' then (false, 1)
    else if |p| >= 3 && p[1] == '-' then
      var rest := ClassHit(p[3..], c);
      (p[0] <= c <= p[2] || p[2] <= c <= p[0] || rest.0, 3 + rest.1)
    else
      var rest := ClassHit(p[1..], c);
      (p[0] == c || rest.0, 1 + rest.1)
  }

  /** Redis's matcher: `*` is any run of characters, `?` any one, `[..]` a class (negated by
      `^`), a backslash makes the next character literal, and anything else is itself. */
  predicate Matches(p: string, s: string)
    decreases |p|, |s|
  {
    if p == "" then s == ""
    else if p[0] == '*' then Matches(p[1..], s) || (s != "" && Matches(p, s[1..]))
    else if s == "" then false
    else if p[0] == '?' then Matches(p[1..], s[1..])
    else if p[0] == '[' then
      var negated := |p| >= 2 && p[1] == '^';
      var body := if negated then p[2..] else p[1..];
      var hit := ClassHit(body, s[0]);
      hit.0 != negated && Matches(body[hit.1..], s[1..])
    else if p[0] == '\\' && |p| >= 2 then p[1] == s[0] && Matches(p[2..], s[1..])
    else p[0] == s[0] && Matches(p[1..], s[1..])
  }

  /** `_glob_escape`: a backslash before every metacharacter. */
  function Escape(value: string): string {
    if value == "" then ""
    else EscapeChar(value[0]) + Escape(value[1..])
  }

  /** The pattern `invalidate` scans for. */
  function Pattern(resource: string): string {
    PREFIX + ":*:" + Escape(resource) + ":*"
  }

  /** The strings a pattern of ours is meant to hit: the resource between two colons. */
  ghost predicate Names(s: string, resource: string) {
    exists a: string, b: string :: s == Spelled(a, resource, b)
  }

  function Spelled(a: string, resource: string, b: string): string {
    PREFIX + ":" + a + ":" + resource + ":" + b
  }

  function EscapeChar(c: char): string {
    if Meta(c) then ['\\', c] else [c]
  }

  lemma OneLiteral(c: char, q: string, s: string)
    ensures Matches(EscapeChar(c) + q, s) <==> s != "" && s[0] == c && Matches(q, s[1..])
  {
    var e := EscapeChar(c) + q;
    assert e[|EscapeChar(c)|..] == q;
  }

  /** An escaped text matches itself and nothing else, whatever follows it. */
  lemma {:induction false} EscapedIsLiteral(l: string, p: string, s: string)
    ensures Matches(Escape(l) + p, s) <==> l <= s && Matches(p, s[|l|..])
  {
    if l == "" {
      assert Escape(l) + p == p && s[|l|..] == s;
    } else {
      var q := Escape(l[1..]) + p;
      assert Escape(l) + p == EscapeChar(l[0]) + q;
      OneLiteral(l[0], q, s);
      if s != "" {
        EscapedIsLiteral(l[1..], p, s[1..]);
        PrefixStep(l, s);
      }
    }
  }

  lemma PrefixStep(l: string, s: string)
    requires l != "" && s != ""
    ensures l <= s <==> l[0] == s[0] && l[1..] <= s[1..]
    ensures |l| <= |s| ==> s[1..][|l[1..]|..] == s[|l|..]
  {
    if l[0] == s[0] && l[1..] <= s[1..] {
      assert l == [l[0]] + l[1..] && s == [s[0]] + s[1..];
    }
  }

  /** A text without metacharacters is its own escape. */
  lemma {:induction false} PlainEscape(l: string)
    requires forall i :: 0 <= i < |l| ==> !Meta(l[i])
    ensures Escape(l) == l
  {
    if l != "" { PlainEscape(l[1..]); }
  }

  lemma {:induction false} StarSkips(p: string, s: string)
    ensures Matches("*" + p, s) <==> exists i :: 0 <= i <= |s| && Matches(p, s[i..])
  {
    var star := "*" + p;
    assert star[1..] == p && s[0..] == s;
    if s != "" {
      StarSkips(p, s[1..]);
      assert forall i :: 0 <= i <= |s| - 1 ==> s[1..][i..] == s[i + 1..];
      if i :| 0 <= i <= |s| && Matches(p, s[i..]) {
        if i > 0 { assert s[1..][i - 1..] == s[i..]; }
      }
    }
  }

  predicate FoundAt(word: string, s: string, i: int) {
    0 <= i <= |s| && word <= s[i..]
  }

  /** The invalidation pattern hits exactly the strings that name the resource. */
  lemma PatternIsExact(resource: string, s: string)
    ensures Matches(Pattern(resource), s) <==> Names(s, resource)
  {
    var head, mid := PREFIX + ":", ":" + resource + ":";
    PatternReading(resource, s);
    if head <= s && (exists i :: FoundAt(mid, s[|head|..], i)) {
      var i :| FoundAt(mid, s[|head|..], i);
      FoundIsNamed(resource, s, i);
    }
    if Names(s, resource) {
      var a: string, b: string :| s == Spelled(a, resource, b);
      NamedIsFound(a, resource, b);
    }
  }

  lemma FoundIsNamed(resource: string, s: string, i: int)
    requires var head := PREFIX + ":"; head <= s && FoundAt(":" + resource + ":", s[|head|..], i)
    ensures Names(s, resource)
  {
    var head, mid := PREFIX + ":", ":" + resource + ":";
    var body := s[|head|..];
    var a, b := body[..i], body[i..][|mid|..];
    SpelledParts(a, resource, b);
    assert body[i..] == mid + b && body == a + (mid + b) && s == head + body;
  }

  lemma NamedIsFound(a: string, resource: string, b: string)
    ensures var head, s := PREFIX + ":", Spelled(a, resource, b);
            head <= s && FoundAt(":" + resource + ":", s[|head|..], |a|)
  {
    var head, mid, s := PREFIX + ":", ":" + resource + ":", Spelled(a, resource, b);
    SpelledParts(a, resource, b);
    assert s[|head|..] == a + (mid + b) && s[|head|..][|a|..] == mid + b;
  }

  lemma SpelledParts(a: string, resource: string, b: string)
    ensures Spelled(a, resource, b) == (PREFIX + ":") + (a + ((":" + resource + ":") + b))
  {
  }

  /** The pattern read left to right: the prefix, then the resource between colons anywhere. */
  lemma PatternReading(resource: string, s: string)
    ensures Matches(Pattern(resource), s) <==>
            var head, mid := PREFIX + ":", ":" + resource + ":";
            head <= s && exists i :: FoundAt(mid, s[|head|..], i)
  {
    var head, mid := PREFIX + ":", ":" + resource + ":";
    PatternParts(resource);
    EscapedIsLiteral(head, "*" + (Escape(mid) + "*"), s);
    if head <= s { FindMiddle(mid, s[|head|..]); }
  }

  lemma PatternParts(resource: string)
    ensures Pattern(resource) == Escape(PREFIX + ":") + ("*" + (Escape(":" + resource + ":") + "*"))
  {
    PlainEscape(PREFIX + ":");
    EscapeAround(resource);
    Regroup(PREFIX, ":", "*", Escape(resource));
    assert ":*:" == ":" + "*" + ":" && ":*" == ":" + "*";
  }

  lemma Regroup(p: string, colon: string, star: string, e: string)
    ensures p + (colon + star + colon) + e + (colon + star) == (p + colon) + (star + ((colon + e + colon) + star))
  {
  }

  lemma FindMiddle(mid: string, body: string)
    ensures Matches("*" + (Escape(mid) + "*"), body) <==> exists i :: FoundAt(mid, body, i)
  {
    var tail := Escape(mid) + "*";
    StarSkips(tail, body);
    forall i | 0 <= i <= |body|
      ensures Matches(tail, body[i..]) <==> FoundAt(mid, body, i)
    {
      EscapedIsLiteral(mid, "*", body[i..]);
      if mid <= body[i..] { AllStar(body[i..][|mid|..]); }
    }
  }

  lemma {:induction false} AllStar(s: string)
    ensures Matches("*", s)
  {
    assert "*"[1..] == "";
    if s != "" { AllStar(s[1..]); }
  }

  lemma EscapeAround(resource: string)
    ensures Escape(":" + resource + ":") == ":" + Escape(resource) + ":"
  {
    EscapeAppend(resource, ":");
    assert (":" + resource + ":")[1..] == resource + ":";
    assert Escape(":") == ":" by { PlainEscape(":"); }
  }

  lemma {:induction false} EscapeAppend(a: string, b: string)
    ensures Escape(a + b) == Escape(a) + Escape(b)
  {
    if a == "" {
      assert a + b == b;
    } else {
      assert (a + b)[1..] == a[1..] + b;
      EscapeAppend(a[1..], b);
    }
  }

  /** Without the escape a resource name could hit its neighbours: `a*` would hit `ab`. */
  lemma UnescapedPatternOverreaches()
    ensures Matches("a*", "ab") && !Matches(Escape("a*"), "ab") && Matches(Escape("a*"), "a*")
  {
    AllStar("b");
    assert "a*"[1..] == "*" && "ab"[1..] == "b";
    EscapedIsLiteral("a*", "", "ab");
    EscapedIsLiteral("a*", "", "a*");
    assert Escape("a*") + "" == Escape("a*") && "a*"[2..] == "";
  }

  // ---- Keys: who else can a pattern hit? ----

  predicate ColonFree(s: string) { ':' !in s }

  /** `_redis_key`. */
  function RedisKey(version: string, resource: string, key: string): string {
    Spelled(version, resource, key)
  }

  /** The keys and the pattern as they go over the wire. */
  lemma OnTheWire(version: string, resource: string, key: string)
    ensures RedisKey(version, resource, key) == "stats-cache:" + version + ":" + resource + ":" + key
    ensures Pattern(resource) == "stats-cache:*:" + Escape(resource) + ":*"
  {
    assert PREFIX + ":" == "stats-cache:" && PREFIX + ":*:" == "stats-cache:*:";
  }

  /** Two colon-free heads before the first colon are equal, and so are the rests. */
  lemma FirstColon(a: string, b: string, c: string, d: string)
    requires ColonFree(a) && ColonFree(c)
    requires a + ":" + b == c + ":" + d
    ensures a == c && b == d
  {
    var s, t := a + ":" + b, c + ":" + d;
    assert s[|a|] == ':' && t[|c|] == ':';
    assert forall i :: 0 <= i < |a| ==> s[i] == a[i];
    assert forall i :: 0 <= i < |c| ==> t[i] == c[i];
    assert |a| == |c|;
    assert a == s[..|a|] && c == t[..|c|];
    assert b == s[|a| + 1..] && d == t[|c| + 1..];
  }

  function Colons(s: string): nat {
    if s == "" then 0 else (if s[0] == ':' then 1 else 0) + Colons(s[1..])
  }

  lemma {:induction false} ColonsAdd(a: string, b: string)
    ensures Colons(a + b) == Colons(a) + Colons(b)
  {
    if a == "" {
      assert a + b == b;
    } else {
      assert (a + b)[1..] == a[1..] + b;
      ColonsAdd(a[1..], b);
    }
  }

  lemma {:induction false} NoColons(s: string)
    ensures Colons(s) == 0 <==> ColonFree(s)
  {
    if s != "" {
      NoColons(s[1..]);
      assert ColonFree(s) <==> s[0] != ':' && ColonFree(s[1..]);
    }
  }

  lemma ColonsSpelled(a: string, r: string, b: string)
    ensures Colons(Spelled(a, r, b)) == Colons(PREFIX) + 3 + Colons(a) + Colons(r) + Colons(b)
  {
    assert Colons(":") == 1;
    assert Spelled(a, r, b) == PREFIX + (":" + (a + (":" + (r + (":" + b)))));
    ColonsAdd(PREFIX, ":" + (a + (":" + (r + (":" + b)))));
    ColonsAdd(":", a + (":" + (r + (":" + b))));
    ColonsAdd(a, ":" + (r + (":" + b)));
    ColonsAdd(":", r + (":" + b));
    ColonsAdd(r, ":" + b);
    ColonsAdd(":", b);
  }

  lemma AfterPrefix(v: string, r: string, k: string)
    ensures |Spelled(v, r, k)| >= |PREFIX| + 1
    ensures Spelled(v, r, k)[|PREFIX| + 1..] == v + ":" + (r + ":" + k)
  {
    assert Spelled(v, r, k) == (PREFIX + ":") + (v + ":" + (r + ":" + k));
  }

  /** A colon-free triple has a key of its own: no other triple, colon-free or not, spells it. */
  lemma KeyIsInjective(v: string, r: string, k: string, v2: string, r2: string, k2: string)
    requires ColonFree(v) && ColonFree(r) && ColonFree(k)
    ensures Spelled(v, r, k) == Spelled(v2, r2, k2) <==> v == v2 && r == r2 && k == k2
  {
    if Spelled(v, r, k) == Spelled(v2, r2, k2) {
      ColonsSpelled(v, r, k);
      ColonsSpelled(v2, r2, k2);
      NoColons(v); NoColons(r); NoColons(k);
      NoColons(v2); NoColons(r2); NoColons(k2);
      AfterPrefix(v, r, k);
      AfterPrefix(v2, r2, k2);
      FirstColon(v, r + ":" + k, v2, r2 + ":" + k2);
      FirstColon(r, k, r2, k2);
    }
  }

  /** Invalidating any resource hits a colon-free key exactly when the key is that resource's;
      it does so for every version. */
  lemma PatternHitsOwnKeysOnly(resource: string, v: string, r: string, k: string)
    requires ColonFree(v) && ColonFree(r) && ColonFree(k)
    ensures Matches(Pattern(resource), RedisKey(v, r, k)) <==> r == resource
  {
    PatternIsExact(resource, RedisKey(v, r, k));
    if Names(RedisKey(v, r, k), resource) {
      var a: string, b: string :| RedisKey(v, r, k) == Spelled(a, resource, b);
      KeyIsInjective(v, r, k, a, resource, b);
    }
  }

  /** Every version's key of the resource is hit, colons or not. */
  lemma PatternHitsEveryVersion(resource: string, v: string, k: string)
    ensures Matches(Pattern(resource), RedisKey(v, resource, k))
  {
    PatternIsExact(resource, RedisKey(v, resource, k));
  }

  /** A key with a colon in one of its parts can be read in another way, as a key of another
      resource. */
  lemma OtherReading(v: string, r: string, k: string) returns (v2: string, r2: string, k2: string)
    requires !(ColonFree(v) && ColonFree(r) && ColonFree(k))
    ensures Spelled(v2, r2, k2) == Spelled(v, r, k) && r2 != r
  {
    if !ColonFree(v) {
      var a, b := AroundColon(v);
      ColonMoves(a, b, r, k);
      v2, r2, k2 := a, b + ":" + r, k;
    } else if !ColonFree(r) {
      var a, b := AroundColon(r);
      ColonMoves(v, a, b, k);
      v2, r2, k2 := v + ":" + a, b, k;
    } else {
      var a, b := AroundColon(k);
      ColonMoves(v, r, a, b);
      v2, r2, k2 := v, r + ":" + a, b;
    }
  }

  lemma AroundColon(s: string) returns (a: string, b: string)
    requires !ColonFree(s)
    ensures s == a + ":" + b
  {
    var i :| 0 <= i < |s| && s[i] == ':';
    a, b := s[..i], s[i + 1..];
  }

  /** A colon does not say which of its neighbours it parts. */
  lemma ColonMoves(a: string, b: string, c: string, d: string)
    ensures Spelled(a, b, c + ":" + d) == Spelled(a + ":" + b, c, d) == Spelled(a, b + ":" + c, d)
  {
  }

  /** Colons are all that matters: the invalidations that hit a key are exactly those of its own
      resource if and only if no part of the key holds one. */
  lemma HitsAreOwnIffColonFree(v: string, r: string, k: string)
    ensures (forall resource: string :: Matches(Pattern(resource), RedisKey(v, r, k)) <==> resource == r)
            <==> ColonFree(v) && ColonFree(r) && ColonFree(k)
  {
    if ColonFree(v) && ColonFree(r) && ColonFree(k) {
      forall resource: string ensures Matches(Pattern(resource), RedisKey(v, r, k)) <==> resource == r {
        PatternHitsOwnKeysOnly(resource, v, r, k);
      }
    } else {
      var v2, r2, k2 := OtherReading(v, r, k);
      PatternHitsEveryVersion(r2, v2, k2);
      assert Matches(Pattern(r2), RedisKey(v, r, k)) && r2 != r;
    }
  }

  /** And under the same condition no other entry shares the key. */
  lemma KeyIsOwnIffColonFree(v: string, r: string, k: string)
    ensures (forall v2, r2, k2 :: Spelled(v2, r2, k2) == Spelled(v, r, k) ==> v2 == v && r2 == r && k2 == k)
            <==> ColonFree(v) && ColonFree(r) && ColonFree(k)
  {
    if ColonFree(v) && ColonFree(r) && ColonFree(k) {
      forall v2, r2, k2 | Spelled(v2, r2, k2) == Spelled(v, r, k) ensures v2 == v && r2 == r && k2 == k {
        KeyIsInjective(v, r, k, v2, r2, k2);
      }
    } else {
      var v2, r2, k2 := OtherReading(v, r, k);
    }
  }

  /** For example: invalidating `hero` drops an entry of `stats`, and two different (resource,
      key) pairs share one Redis key. */
  lemma ColonsBreakExactness()
    ensures Matches(Pattern("hero"), RedisKey("1", "stats", "hero:k"))
    ensures RedisKey("1", "stats", "hero:k") == RedisKey("1", "stats:hero", "k")
  {
    ColonMoves("1", "stats", "hero", "k");
    PatternIsExact("hero", RedisKey("1", "stats", "hero:k"));
  }
}
