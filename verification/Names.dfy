// Texts as both services normalize them: String.prototype.trim, and normalizeNameForHash of
// gateway/src/adapters/types.ts on names that punycode gives back unchanged.
module Names {

  // What String.prototype.trim removes.
  predicate Blank(c: char) {
    var n := c as int;
    || 9 <= n <= 13 || n == 32 || n == 0xA0 || n == 0x1680 || 0x2000 <= n <= 0x200A
    || n == 0x2028 || n == 0x2029 || n == 0x202F || n == 0x205F || n == 0x3000 || n == 0xFEFF
  }

  function Trim(s: string): (r: string)
    decreases |s|
  {
    if s == [] then s
    else if Blank(s[0]) then Trim(s[1..])
    else if Blank(s[|s| - 1]) then Trim(s[..|s| - 1])
    else s
  }

  // replace(/\.$/, "")
  function StripOneDot(s: string): string {
    if EndsInDot(s) then s[..|s| - 1] else s
  }

  predicate EndsInDot(s: string) {
    s != [] && s[|s| - 1] == '.'
  }

  function LowerChar(c: char): char {
    if 'A' <= c <= 'Z' then (c as int + 32) as char else c
  }

  function Lower(s: string): (r: string)
    ensures |r| == |s| && forall i :: 0 <= i < |s| ==> r[i] == LowerChar(s[i])
  {
    seq(|s|, i requires 0 <= i < |s| => LowerChar(s[i]))
  }

  // ASCII with at most one @: punycode.toASCII gives such a name back.
  predicate Plain(s: string) {
    && (forall i :: 0 <= i < |s| ==> s[i] < 128 as char)
    && (forall i, j :: 0 <= i < j < |s| ==> s[i] != '@' || s[j] != '@')
  }

  // normalizeNameForHash, where punycode changes nothing.
  function Norm(s: string): string {
    Lower(StripOneDot(Trim(s)))
  }

  // f is normalizeNameForHash on the names that punycode leaves alone, whatever it does on others.
  ghost predicate NormalizesPlain(f: string -> string) {
    forall s :: Plain(s) ==> f(s) == Norm(s)
  }

  // ---------- what is left after trimming and stripping ----------

  predicate BlankEnds(s: string) {
    s != [] && (Blank(s[0]) || Blank(s[|s| - 1]))
  }

  lemma {:induction false} TrimmedEnds(s: string)
    ensures !BlankEnds(Trim(s)) && (!BlankEnds(s) ==> Trim(s) == s)
    ensures |Trim(s)| <= |s| && (Trim(s) == s ==> !BlankEnds(s))
    decreases |s|
  {
    if s != [] {
      if Blank(s[0]) {
        TrimmedEnds(s[1..]);
      } else if Blank(s[|s| - 1]) {
        TrimmedEnds(s[..|s| - 1]);
      }
    }
  }

  lemma LowerKeeps(s: string)
    ensures Lower(Lower(s)) == Lower(s)
    ensures Lower(StripOneDot(s)) == StripOneDot(Lower(s))
    ensures BlankEnds(Lower(s)) == BlankEnds(s) && EndsInDot(Lower(s)) == EndsInDot(s)
  {
  }

  lemma {:induction false} LowerTrims(s: string)
    ensures Trim(Lower(s)) == Lower(Trim(s))
    decreases |s|
  {
    if s != [] {
      assert Lower(s)[1..] == Lower(s[1..]) && Lower(s)[..|s| - 1] == Lower(s[..|s| - 1]);
      if Blank(s[0]) {
        LowerTrims(s[1..]);
      } else if Blank(s[|s| - 1]) {
        LowerTrims(s[..|s| - 1]);
      }
    }
  }

  lemma {:induction false} TrimIsPlain(s: string)
    requires Plain(s)
    ensures Plain(Trim(s))
    decreases |s|
  {
    if s != [] {
      if Blank(s[0]) {
        TrimIsPlain(s[1..]);
      } else if Blank(s[|s| - 1]) {
        TrimIsPlain(s[..|s| - 1]);
      }
    }
  }

  lemma NormIsPlain(s: string)
    requires Plain(s)
    ensures Plain(Norm(s))
  {
    TrimIsPlain(s);
    hide Trim;
  }

  // A normalized name is lower-case text without a blank in front.
  lemma NormShape(s: string)
    ensures Lower(Norm(s)) == Norm(s) && (Norm(s) != [] ==> !Blank(Norm(s)[0]))
  {
    TrimmedEnds(s);
    LowerKeeps(StripOneDot(Trim(s)));
    hide Trim;
  }

  // ---------- when normalizing twice is normalizing once ----------

  // Trimmed, the name ends in a dot behind another dot or a blank.
  predicate DotBehind(s: string) {
    var t := Trim(s);
    |t| >= 2 && EndsInDot(t) && (t[|t| - 2] == '.' || Blank(t[|t| - 2]))
  }

  lemma NormOfNorm(s: string)
    ensures Norm(Norm(s)) == Lower(StripOneDot(Trim(StripOneDot(Trim(s)))))
  {
    var u := StripOneDot(Trim(s));
    LowerTrims(u);
    LowerKeeps(Trim(u));
    LowerKeeps(StripOneDot(Trim(u)));
    hide Trim;
    hide Lower;
  }

  // A second normalization changes exactly those names.
  lemma NormTwiceExactly(s: string)
    ensures Norm(Norm(s)) == Norm(s) <==> !DotBehind(s)
  {
    var t := Trim(s);
    var u := StripOneDot(t);
    NormOfNorm(s);
    TrimmedEnds(s);
    TrimmedEnds(u);
    hide Trim;
    assert |Norm(s)| == |u| && |Norm(Norm(s))| == |StripOneDot(Trim(u))|;
    assert DotBehind(s) <==> BlankEnds(u) || EndsInDot(u);
  }

  // ---------- which names a second normalization makes equal ----------

  predicate AllBlank(s: string) {
    forall c :: c in s ==> Blank(c)
  }

  // name is core, then at most one dot, then blanks; without the dot, core ends in no dot or blank.
  predicate CoreOf(core: string, name: string) {
    && |core| <= |name| && name[..|core|] == core
    && var tail := name[|core|..];
       || (tail != [] && tail[0] == '.' && AllBlank(tail[1..]))
       || (AllBlank(tail) && !EndsInDot(core) && (core == [] || !Blank(core[|core| - 1])))
  }

  ghost predicate OneCore(p: string, q: string) {
    exists core :: CoreOf(core, p) && CoreOf(core, q)
  }

  predicate Starts(s: string) {
    s == [] || !Blank(s[0])
  }

  lemma {:induction false} BlankTail(s: string, tail: string)
    requires Starts(s) && !BlankEnds(s) && AllBlank(tail) && Starts(s + tail)
    ensures Trim(s + tail) == s
    decreases |tail|
  {
    if tail == [] {
      assert s + tail == s;
      TrimmedEnds(s);
    } else {
      var m := |tail| - 1;
      assert tail[m] in tail && (s + tail)[|s| + m] == tail[m];
      assert (s + tail)[..|s| + m] == s + tail[..m];
      assert tail[0] in tail;
      assert s == [] ==> s + tail == tail;
      assert s != [] ==> (s + tail)[0] == s[0];
      BlankTail(s, tail[..m]);
    }
  }

  // What trimming cuts off behind.
  lemma {:induction false} TrimCuts(p: string)
    requires Starts(p)
    ensures |Trim(p)| <= |p| && p[..|Trim(p)|] == Trim(p) && AllBlank(p[|Trim(p)|..])
    decreases |p|
  {
    if p != [] && Blank(p[|p| - 1]) {
      var m := |p| - 1;
      TrimCuts(p[..m]);
      var n := |Trim(p[..m])|;
      assert p[n..] == p[..m][n..] + [p[m]];
      assert p[..m][..n] == p[..n];
    }
  }

  lemma CoreExactly(core: string, p: string)
    requires Starts(p)
    ensures CoreOf(core, p) <==> core == StripOneDot(Trim(p))
  {
    if CoreOf(core, p) {
      CoreIsKept(core, p);
    }
    TrimCuts(p);
    TrimmedEnds(p);
    hide Trim;
    var v := Trim(p);
    if core == StripOneDot(v) {
      assert p[..|core|] == v[..|core|];
      if EndsInDot(v) {
        assert p[|core|] == '.' && p[|core|..][1..] == p[|v|..];
      }
    }
  }

  lemma CoreIsKept(core: string, p: string)
    requires Starts(p) && CoreOf(core, p)
    ensures StripOneDot(Trim(p)) == core
  {
    var tail := p[|core|..];
    assert p == core + tail;
    if tail != [] && tail[0] == '.' && AllBlank(tail[1..]) {
      var v := core + ".";
      assert p == v + tail[1..];
      BlankTail(v, tail[1..]);
      assert v[..|core|] == core;
    } else {
      BlankTail(core, tail);
    }
  }

  // Normalized names become equal when normalized again exactly when they have one core.
  lemma SameCoreExactly(s: string, t: string)
    ensures Norm(Norm(s)) == Norm(Norm(t)) <==> OneCore(Norm(s), Norm(t))
  {
    var p, q := Norm(s), Norm(t);
    NormShape(s);
    NormShape(t);
    hide Norm;
    CoreOfNorm(p);
    CoreOfNorm(q);
    if Norm(p) == Norm(q) {
      assert CoreOf(Norm(p), p) && CoreOf(Norm(p), q);
    }
  }

  lemma CoreOfNorm(p: string)
    requires Starts(p) && Lower(p) == p
    ensures forall core :: CoreOf(core, p) <==> core == Norm(p)
  {
    LowerTrims(p);
    LowerKeeps(Trim(p));
    hide Trim;
    hide CoreOf;
    forall core ensures CoreOf(core, p) <==> core == Norm(p) {
      CoreExactly(core, p);
    }
  }

  // ---------- what normalizing does ----------

  // Tab to carriage return, the blank, the no-break blanks, the line and paragraph separators, and
  // the other space separators of Unicode.
  lemma BlanksExactly(c: char)
    ensures Blank(c) <==> c as int in {
              0x09, 0x0A, 0x0B, 0x0C, 0x0D, 0x20, 0xA0, 0x1680, 0x2000, 0x2001, 0x2002, 0x2003, 0x2004, 0x2005,
              0x2006, 0x2007, 0x2008, 0x2009, 0x200A, 0x2028, 0x2029, 0x202F, 0x205F, 0x3000, 0xFEFF}
  {
  }

  lemma {:induction false} BlankFront(front: string, s: string)
    requires AllBlank(front)
    ensures Trim(front + s) == Trim(s)
    decreases |front|
  {
    if front == [] {
      assert front + s == s;
    } else {
      assert front[0] in front && (front + s)[1..] == front[1..] + s;
      BlankFront(front[1..], s);
    }
  }

  // Trimming takes the blanks around a text and nothing else.
  lemma TrimExactly(front: string, core: string, back: string)
    requires AllBlank(front) && AllBlank(back) && core != [] && !BlankEnds(core)
    ensures Trim(front + core + back) == core
  {
    assert front + core + back == front + (core + back);
    BlankFront(front, core + back);
    assert (core + back)[0] == core[0];
    BlankTail(core, back);
  }

  // Blanks around a name, one dot at its end and the case of its ASCII letters do not count.
  lemma NormExactly(front: string, core: string, back: string)
    requires AllBlank(front) && AllBlank(back) && core != [] && !BlankEnds(core) && !EndsInDot(core)
    ensures var r := Norm(front + core + back);
            && r == Norm(front + core + "." + back) && |r| == |core|
            && forall i :: 0 <= i < |core| ==>
                 r[i] == if 65 <= core[i] as int <= 90 then (core[i] as int + 32) as char else core[i]
  {
    TrimExactly(front, core, back);
    var dotted := core + ".";
    assert dotted[0] == core[0] && dotted[..|core|] == core;
    TrimExactly(front, dotted, back);
    assert front + core + "." + back == front + dotted + back;
  }
}
