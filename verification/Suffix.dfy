/** Probing a map with the dot-aligned suffixes of a name, longest first. */
module Suffix {
  import opened Wire
  import opened Names

  /** The entry of the longest non-empty label suffix of `ls` that is a key. */
  function Longest<V>(m: map<Text, V>, ls: seq<Text>): Option<V> {
    if ls == [] then None
    else if Dotted(ls) in m then Some(m[Dotted(ls)])
    else Longest(m, ls[1..])
  }

  ghost predicate IsSuffix(s: seq<Text>, ls: seq<Text>) {
    |s| <= |ls| && ls[|ls| - |s|..] == s
  }

  /** `s` is a key's label list, and a suffix of `ls`. */
  ghost predicate Candidate<V>(m: map<Text, V>, ls: seq<Text>, s: seq<Text>) {
    s != [] && IsSuffix(s, ls) && Dotted(s) in m
  }

  lemma SuffixTail(s: seq<Text>, ls: seq<Text>)
    requires ls != [] && s != ls
    ensures IsSuffix(s, ls) <==> IsSuffix(s, ls[1..])
  {
    if |s| < |ls| {
      assert ls[1..][|ls| - 1 - |s|..] == ls[|ls| - |s|..];
    } else if |s| == |ls| {
      assert ls[0..] == ls;
    }
  }

  /** The result is present exactly when some suffix is a key, and it is the longest one's entry. */
  lemma {:induction false} LongestExact<V>(m: map<Text, V>, ls: seq<Text>)
    ensures Longest(m, ls).None? <==> forall s :: !Candidate(m, ls, s)
    ensures Longest(m, ls).Some? ==>
              exists s :: Candidate(m, ls, s) && Longest(m, ls) == Some(m[Dotted(s)]) &&
                          forall t :: Candidate(m, ls, t) ==> |t| <= |s|
    decreases |ls|
  {
    if ls == [] {
    } else if Dotted(ls) in m {
      assert ls[0..] == ls;
      assert Candidate(m, ls, ls);
    } else {
      LongestExact(m, ls[1..]);
      forall s ensures Candidate(m, ls, s) <==> Candidate(m, ls[1..], s) {
        if s != ls {
          SuffixTail(s, ls);
        } else {
          assert |s| > |ls[1..]|;
        }
      }
    }
  }

  /** A matching suffix is the label list of its key, so no key matches inside a label. */
  lemma CandidateLabels<V>(m: map<Text, V>, ls: seq<Text>, s: seq<Text>)
    requires NoDots(ls) && Candidate(m, ls, s)
    ensures Labels(Dotted(s)) == s && Dotted(s) != [DOT]
  {
    forall k | 0 <= k < |s| ensures DOT !in s[k] && s[k] != [] {
      assert s[k] == ls[|ls| - |s| + k];
    }
    SplitDotted(s);
    StripLabel(s);
  }

  lemma {:induction false} LongestInEmpty<V>(m: map<Text, V>, ls: seq<Text>)
    requires m == map[]
    ensures Longest(m, ls) == None
    decreases |ls|
  {
    if ls != [] {
      LongestInEmpty(m, ls[1..]);
    }
  }

  lemma FirstDotOfRoot()
    ensures FirstDot([DOT]) == 0 && FirstDot([]) == 0
  {
  }

  /** Stripping the leftmost label, as slicing after the first dot does. */
  lemma StripLabel(ls: seq<Text>)
    requires ls != [] && NoDots(ls)
    ensures FirstDot(Dotted(ls)) == |ls[0]| < |Dotted(ls)|
    ensures Dotted(ls)[|ls[0]| + 1..] == Dotted(ls[1..])
    ensures Dotted(ls) != [] && Dotted(ls) != [DOT]
  {
    SplitDot(ls[0], Dotted(ls[1..]));
  }
}
