/**
 How `src/certstore.rs` compares host names: without regard to the case of ASCII letters, to dots at the end,
 and, in a configured pattern, to blanks around it. Which patterns it accepts is spelled out here.
 */
module SniNames {
  import opened Wrappers
  import opened Strings
  import opened Sni

  /** The same character, or the same ASCII letter in the other case. */
  predicate SameLetter(a: char, b: char) {
    || a == b
    || ('A' <= a <= 'Z' && b as int == a as int + 32)
    || ('A' <= b <= 'Z' && a as int == b as int + 32)
  }

  predicate SameName(a: string, b: string) {
    |a| == |b| && forall i :: 0 <= i < |a| ==> SameLetter(a[i], b[i])
  }

  predicate Dots(s: string) {
    forall i :: 0 <= i < |s| ==> s[i] == '.'
  }

  predicate Blank(s: string) {
    forall i :: 0 <= i < |s| ==> White(s[i])
  }

  predicate EndsBare(s: string) {
    s == "" || s[|s| - 1] != '.'
  }

  lemma LowerLetter(a: char, b: char)
    ensures LowerChar(a) == LowerChar(b) <==> SameLetter(a, b)
  {
  }

  /** Names that differ only in case are the same in lower case, and no others. */
  lemma LowerExact(a: string, b: string)
    ensures Lower(a) == Lower(b) <==> SameName(a, b)
  {
    if |a| == |b| {
      forall i | 0 <= i < |a| ensures Lower(a)[i] == Lower(b)[i] <==> SameLetter(a[i], b[i]) {
        LowerLetter(a[i], b[i]);
      }
      hide SameLetter, LowerChar;
      if Lower(a) == Lower(b) {
        assert forall i :: 0 <= i < |a| ==> Lower(a)[i] == Lower(b)[i];
      }
    }
  }

  lemma {:induction false} TrimDotsExact(name: string, dots: string)
    requires EndsBare(name) && Dots(dots)
    ensures TrimDots(name + dots) == name
    decreases |dots|
  {
    if dots == "" {
      assert name + dots == name;
    } else {
      var fewer := dots[..|dots| - 1];
      assert (name + dots)[..|name + dots| - 1] == name + fewer && (name + dots)[|name + dots| - 1] == '.';
      TrimDotsExact(name, fewer);
    }
  }

  lemma {:induction false} TrimStartExact(before: string, s: string)
    requires Blank(before) && (s == "" || !White(s[0]))
    ensures TrimStart(before + s) == s
    decreases |before|
  {
    if before == "" {
      assert before + s == s;
    } else {
      assert White(before[0]) && (before + s)[0] == before[0] && (before + s)[1..] == before[1..] + s;
      hide White;
      TrimStartExact(before[1..], s);
    }
  }

  lemma {:induction false} TrimEndExact(s: string, after: string)
    requires Blank(after) && (s == "" || !White(s[|s| - 1]))
    ensures TrimEnd(s + after) == s
    decreases |after|
  {
    if after == "" {
      assert s + after == s;
    } else {
      var fewer := after[..|after| - 1];
      assert White(after[|after| - 1]) && (s + after)[|s + after| - 1] == after[|after| - 1];
      assert (s + after)[..|s + after| - 1] == s + fewer;
      hide White;
      TrimEndExact(s, fewer);
    }
  }

  lemma TrimExact(before: string, s: string, after: string)
    requires Blank(before) && Blank(after) && (s == "" || (!White(s[0]) && !White(s[|s| - 1])))
    ensures Trim(before + s + after) == s
  {
    hide White;
    if s == "" {
      assert before + s + after == (before + after) + "";
      assert Blank(before + after);
      TrimStartExact(before + after, "");
    } else {
      assert before + s + after == before + (s + after) && (s + after)[0] == s[0];
      TrimStartExact(before, s + after);
      TrimEndExact(s, after);
    }
  }

  /** The name a client asks for is looked up without regard to case and to dots at its end. */
  lemma SelectIgnoresCase(r: Resolver, a: string, dotsA: string, b: string, dotsB: string)
    requires Ready(r) && EndsBare(a) && EndsBare(b) && Dots(dotsA) && Dots(dotsB) && SameName(a, b)
    ensures Select(r, Some(a + dotsA)) == Select(r, Some(b + dotsB))
  {
    TrimDotsExact(a, dotsA);
    TrimDotsExact(b, dotsB);
    LowerExact(a, b);
    hide Ready, TrimDots, Lower, SameName, IndexOf, Keyed;
  }

  lemma LowerMarks(s: string)
    ensures "*." <= Lower(s) <==> "*." <= s
    ensures '*' in Lower(s) <==> '*' in s
    ensures '.' in Lower(s) <==> '.' in s
    ensures |s| >= 2 ==> Lower(s)[2..] == Lower(s[2..])
  {
    forall i | 0 <= i < |s| ensures (Lower(s)[i] == '*' <==> s[i] == '*') && (Lower(s)[i] == '.' <==> s[i] == '.') {
    }
    hide LowerChar;
  }

  /**
   A configured pattern, blanks around it and dots at its end left aside: a star in front of a domain of two
   labels or more, or a name without stars; and nothing else.
   */
  lemma HostExact(before: string, host: string, dots: string, after: string)
    requires Blank(before) && Blank(after) && Dots(dots) && EndsBare(host)
    requires var text := host + dots; text == "" || (!White(text[0]) && !White(text[|text| - 1]))
    ensures ParseHost(before + (host + dots) + after)
            == if "*." <= host then
                 if '*' in host[2..] || '.' !in host[2..] then Err else Ok(Wildcard("." + Lower(host[2..])))
               else if host == "" || '*' in host then Err
               else Ok(Exact(Lower(host)))
  {
    TrimExact(before, host + dots, after);
    TrimDotsExact(host, dots);
    LowerMarks(host);
    if "*." <= host {
      LowerMarks(host[2..]);
    }
    hide Trim, TrimDots, Lower;
  }
}
