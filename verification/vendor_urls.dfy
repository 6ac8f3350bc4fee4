/**
 * The pure part of `getvendors`: which website cells are probed at all, how a website
 * is normalised (every `https://` removed, every `www` plus the character after it
 * removed), and the two candidate URLs built for a vendor.
 */
module VendorUrls {
  import opened Wrappers
  import opened Text
  import opened Frames

  const Https: string := "https://"

  /** A pattern that has a character `s` lacks does not occur in `s`. */
  lemma MissingChar(s: string, pat: string, k: nat)
    requires k < |pat| && pat[k] !in s
    ensures !Contains(s, pat)
  {
    ContainsIff(s, pat);
  }

  /** A pattern whose first character is not in `a` occurs in `a + b` only if it occurs in `b`. */
  lemma NotContainsAfter(a: string, b: string, pat: string)
    requires |pat| > 0 && pat[0] !in a && !Contains(b, pat)
    ensures !Contains(a + b, pat)
  {
    ContainsIff(a + b, pat);
    ContainsIff(b, pat);
    forall i: nat | OccursAt(a + b, pat, i)
      ensures false
    {
      if i >= |a| {
        assert (a + b)[i..i + |pat|] == b[i - |a|..i - |a| + |pat|];
        assert OccursAt(b, pat, i - |a|);
      }
    }
  }

  /** A string that contains `p + q` contains `p`. */
  lemma ContainsPrefixOf(s: string, p: string, q: string)
    requires Contains(s, p + q)
    ensures Contains(s, p)
  {
    ContainsIff(s, p + q);
    var i: nat :| OccursAt(s, p + q, i);
    assert s[i..i + |p|] == (p + q)[..|p|];
    assert OccursAt(s, p, i);
    ContainsIff(s, p);
  }

  /** `re.sub(pat, '', s)` for a literal pattern: occurrences removed left to right, without overlap. */
  function RemoveAll(s: string, pat: string): (r: string)
    requires |pat| > 0
    ensures |r| <= |s|
    ensures !Contains(s, pat) ==> r == s
    ensures Contains(s, pat) ==> |r| <= |s| - |pat|
    decreases |s|
  {
    if |s| < |pat| then
      ContainsFits(s, pat);
      s
    else if s[..|pat|] == pat then RemoveAll(s[|pat|..], pat)
    else [s[0]] + RemoveAll(s[1..], pat)
  }

  /** Text before the first possible start of the pattern is kept as it is. */
  lemma {:induction false} RemoveAllSkip(a: string, b: string, pat: string)
    requires |pat| > 0 && pat[0] !in a
    ensures RemoveAll(a + b, pat) == a + RemoveAll(b, pat)
    decreases |a|
  {
    if |a| > 0 {
      var s := a + b;
      assert s[0] == a[0] && s[1..] == a[1..] + b;
      if |s| >= |pat| {
        assert s[..|pat|][0] != pat[0];
      }
      RemoveAllSkip(a[1..], b, pat);
    } else {
      assert a + b == b;
    }
  }

  /** Every occurrence goes, not only a leading one: `a + pat + b` loses the `pat`. */
  lemma RemoveAllInner(a: string, pat: string, b: string)
    requires |pat| > 0 && pat[0] !in a
    ensures RemoveAll(a + pat + b, pat) == a + RemoveAll(b, pat)
  {
    assert a + pat + b == a + (pat + b);
    RemoveAllSkip(a, pat + b, pat);
    assert (pat + b)[..|pat|] == pat && (pat + b)[|pat|..] == b;
  }

  /** The regular expression `www.` matches at `i`: `.` is any character but a newline. */
  predicate WwwAt(s: string, i: nat) {
    i + 4 <= |s| && s[i..i + 3] == "www" && s[i + 3] != '\n'
  }

  /** Some `www.` matches in `s`. */
  predicate HasWww(s: string) {
    exists i: nat :: i < |s| && WwwAt(s, i)
  }

  /** A text that starts with some other character than `w` has no match at its start. */
  lemma NoWwwAtStart(s: string)
    requires |s| > 0 && s[0] != 'w'
    ensures !WwwAt(s, 0)
  {
    if |s| >= 3 {
      assert s[0..3][0] == s[0];
    }
  }

  /** A match past the first character is a match in the tail. */
  lemma WwwInTail(s: string)
    requires |s| > 0 && !WwwAt(s, 0) && HasWww(s)
    ensures HasWww(s[1..])
  {
    var i: nat :| i < |s| && WwwAt(s, i);
    assert s[1..][i - 1..i + 2] == s[i..i + 3];
    assert WwwAt(s[1..], i - 1);
  }

  /** `re.sub('www.', '', s)` */
  function RemoveWww(s: string): (r: string)
    ensures |r| <= |s|
    ensures !Contains(s, "www") ==> r == s
    ensures HasWww(s) ==> |r| <= |s| - 4
    decreases |s|
  {
    if |s| < 4 then s
    else if WwwAt(s, 0) then RemoveWww(s[4..])
    else
      if HasWww(s) then WwwInTail(s); [s[0]] + RemoveWww(s[1..])
      else [s[0]] + RemoveWww(s[1..])
  }

  /** Text without a `w` before a match is kept as it is. */
  lemma {:induction false} RemoveWwwSkip(a: string, b: string)
    requires 'w' !in a
    ensures RemoveWww(a + b) == a + RemoveWww(b)
    decreases |a|
  {
    if |a| > 0 {
      var s := a + b;
      assert s[0] == a[0] && s[1..] == a[1..] + b;
      NoWwwAtStart(s);
      RemoveWwwSkip(a[1..], b);
    } else {
      assert a + b == b;
    }
  }

  /** Every `www.` goes, not only a leading one: `a + "www" + [c] + b` loses the four characters. */
  lemma RemoveWwwInner(a: string, c: char, b: string)
    requires 'w' !in a && c != '\n'
    ensures RemoveWww(a + "www" + [c] + b) == a + RemoveWww(b)
  {
    var t := "www" + [c] + b;
    assert a + "www" + [c] + b == a + t;
    RemoveWwwSkip(a, t);
    assert t[0..3] == "www" && t[3] == c && t[4..] == b;
    assert WwwAt(t, 0);
  }

  /**
   * Lines 171-177: `https://` removed if the text has `https`, then `www.` removed if
   * it has `www`. A website with neither is left as it is.
   */
  function Normalize(s: string): (site: string)
    ensures |site| <= |s|
    ensures !Contains(s, "https") && !Contains(s, "www") ==> site == s
  {
    var t := if Contains(s, "https") then RemoveAll(s, Https) else s;
    if Contains(t, "www") then RemoveWww(t) else t
  }

  /** The `if` guards only skip substitutions that would change nothing. */
  lemma NormalizeUnguarded(s: string)
    ensures Normalize(s) == RemoveWww(RemoveAll(s, Https))
  {
    if !Contains(s, "https") && Contains(s, Https) {
      assert Https == "https" + "://";
      ContainsPrefixOf(s, "https", "://");
      assert false;
    }
  }

  /** A single leading `https://www.` is stripped. */
  lemma NormalizeLeading(h: string)
    requires !Contains(h, Https) && !Contains(h, "www")
    ensures Normalize(Https + "www." + h) == h
  {
    var none: string := [];
    assert none + Https + "www." + h == Https + "www." + h;
    NormalizeInner(none, h);
  }

  /**
   * A `https://www.` inside the website is stripped too: text before it that has no `h`
   * and no `w` stays in front of the host.
   */
  lemma NormalizeInner(a: string, h: string)
    requires 'h' !in a && 'w' !in a
    requires !Contains(h, Https) && !Contains(h, "www")
    ensures Normalize(a + Https + "www." + h) == a + h
  {
    var t := "www." + h;
    var s := a + Https + t;
    assert a + Https + "www." + h == s;
    NormalizeUnguarded(s);
    NotContainsAfter("www.", h, Https);
    RemoveAllInner(a, Https, t);
    RemoveDottedWww(a, h);
  }

  /** The `www.` step of `NormalizeInner`. */
  lemma RemoveDottedWww(a: string, h: string)
    requires 'w' !in a && !Contains(h, "www")
    ensures RemoveWww(a + ("www." + h)) == a + h
  {
    assert a + ("www." + h) == a + "www" + ['.'] + h;
    RemoveWwwInner(a, '.', h);
  }

  /* Python's `str.split('.')` and `'.'.join(...)`. */

  /** `'.'.join(labels)` */
  function JoinDots(labels: seq<string>): string
    requires |labels| >= 1
  {
    if |labels| == 1 then labels[0] else labels[0] + "." + JoinDots(labels[1..])
  }

  lemma {:induction false} JoinCons(c: char, labels: seq<string>)
    requires |labels| >= 1
    ensures JoinDots([[c] + labels[0]] + labels[1..]) == [c] + JoinDots(labels)
  {
    var l := [[c] + labels[0]] + labels[1..];
    assert l[0] == [c] + labels[0] && l[1..] == labels[1..];
    if |labels| > 1 {
      var tail := "." + JoinDots(labels[1..]);
      assert JoinDots(l) == l[0] + tail;
      assert JoinDots(labels) == labels[0] + tail;
      assert ([c] + labels[0]) + tail == [c] + (labels[0] + tail);
    }
  }

  /** `s.split('.')`: at least one label, none with a dot, and joining them gives `s` back. */
  function SplitDots(s: string): (labels: seq<string>)
    ensures |labels| >= 1
    ensures forall j :: 0 <= j < |labels| ==> '.' !in labels[j]
    ensures JoinDots(labels) == s
  {
    if |s| == 0 then [""]
    else
      var rest := SplitDots(s[1..]);
      assert s == [s[0]] + s[1..];
      if s[0] == '.' then
        assert ([""] + rest)[1..] == rest;
        [""] + rest
      else
        JoinCons(s[0], rest);
        [[s[0]] + rest[0]] + rest[1..]
  }

  /** Splitting a dot-free label followed by `t` extends the first label of `t`. */
  lemma {:induction false} SplitLabel(l: string, t: string)
    requires '.' !in l
    ensures SplitDots(l + t) == [l + SplitDots(t)[0]] + SplitDots(t)[1..]
    decreases |l|
  {
    if |l| > 0 {
      SplitLabel(l[1..], t);
      var st := SplitDots(t);
      assert (l + t)[1..] == l[1..] + t;
      assert (l + t)[0] == l[0] && l[0] != '.';
      var r := SplitDots(l[1..] + t);
      assert r == [l[1..] + st[0]] + st[1..];
      assert SplitDots(l + t) == [[l[0]] + r[0]] + r[1..];
      assert [l[0]] + (l[1..] + st[0]) == l + st[0];
    } else {
      var st := SplitDots(t);
      assert l + t == t && l + st[0] == st[0];
      assert [st[0]] + st[1..] == st;
    }
  }

  /** Splitting undoes joining, for labels without dots. */
  lemma {:induction false} SplitJoin(labels: seq<string>)
    requires |labels| >= 1
    requires forall j :: 0 <= j < |labels| ==> '.' !in labels[j]
    ensures SplitDots(JoinDots(labels)) == labels
    decreases |labels|
  {
    if |labels| == 1 {
      SplitLabel(labels[0], "");
      assert SplitDots("") == [""];
      assert labels[0] + "" == labels[0];
      assert labels == [labels[0]];
    } else {
      var rest := JoinDots(labels[1..]);
      SplitJoin(labels[1..]);
      assert labels[0] + "." + rest == labels[0] + ("." + rest);
      SplitLabel(labels[0], "." + rest);
      assert ("." + rest)[1..] == rest && ("." + rest)[0] == '.';
      assert SplitDots("." + rest) == [""] + labels[1..];
      assert labels[0] + "" == labels[0];
      assert labels == [labels[0]] + labels[1..];
    }
  }

  /** What is done with one website for one vendor. */
  datatype Plan =
    | Skip                                      // not probed; the cell is 'NA'
    | Probe(primary: string, fallback: string)  // probed at `primary`, then at `fallback`

  /**
   * Lines 159-185: a website that is not a string, or has no `edu` in it, is skipped.
   * Otherwise the primary candidate puts the vendor in front of the normalised site
   * and the fallback splices it in as the site's second label; removing that label
   * gives the site back.
   */
  function PlanFor(website: Cell, vendor: string): (r: Plan)
    ensures r.Skip? <==> website.None? || !Contains(website.value, "edu")
    ensures r.Probe? ==>
      var site := Normalize(website.value);
      var labels := SplitDots(site);
      && r.primary == Https + vendor + "." + site
      && r.fallback == Https + JoinDots([labels[0], vendor] + labels[1..])
      && |r.fallback| > |Https| && r.fallback[..|Https|] == Https
      && ('.' !in vendor ==> SplitDots(r.primary[|Https|..]) == [vendor] + labels)
      && ('.' !in vendor ==> SplitDots(r.fallback[|Https|..]) == [labels[0], vendor] + labels[1..])
      && ('.' !in vendor ==>
            var host := SplitDots(r.fallback[|Https|..]);
            JoinDots([host[0]] + host[2..]) == site)
  {
    if website.None? || !Contains(website.value, "edu") then Skip
    else
      var site := Normalize(website.value);
      var labels := SplitDots(site);
      var spliced := [labels[0], vendor] + labels[1..];
      var primary := Https + vendor + "." + site;
      var fallback := Https + JoinDots(spliced);
      assert primary[|Https|..] == vendor + "." + site;
      assert fallback[|Https|..] == JoinDots(spliced);
      if '.' !in vendor then
        assert vendor + "." + site == JoinDots([vendor] + labels) by {
          assert ([vendor] + labels)[1..] == labels;
        }
        assert forall j :: 0 <= j < |[vendor] + labels| ==> '.' !in ([vendor] + labels)[j];
        SplitJoin([vendor] + labels);
        assert forall j :: 0 <= j < |spliced| ==> '.' !in spliced[j];
        SplitJoin(spliced);
        assert [labels[0]] + labels[1..] == labels;
        assert spliced[2..] == labels[1..];
        Probe(primary, fallback)
      else
        Probe(primary, fallback)
  }

  /** The per-vendor pass over the roster's `Website` column: one plan per row, in row order. */
  method PlanColumn(websites: seq<Cell>, vendor: string) returns (plans: seq<Plan>)
    ensures |plans| == |websites|
    ensures forall i :: 0 <= i < |websites| ==> plans[i] == PlanFor(websites[i], vendor)
  {
    plans := [];
    var i := 0;
    while i < |websites|
      invariant 0 <= i <= |websites|
      invariant |plans| == i
      invariant forall j :: 0 <= j < i ==> plans[j] == PlanFor(websites[j], vendor)
    {
      plans := plans + [PlanFor(websites[i], vendor)];
      i := i + 1;
    }
  }

  lemma Assoc(a: string, b: string, c: string)
    ensures a + (b + c) == a + b + c
  {
  }

  /** A pattern that occurs in `h` occurs in any string ending in `h`. */
  lemma ContainsInSuffix(a: string, h: string, pat: string)
    requires Contains(h, pat)
    ensures Contains(a + h, pat)
  {
    ContainsIff(h, pat);
    var i: nat :| OccursAt(h, pat, i);
    assert (a + h)[|a| + i..|a| + i + |pat|] == h[i..i + |pat|];
    assert OccursAt(a + h, pat, |a| + i);
    ContainsIff(a + h, pat);
  }

  /** The site `<name>.edu` has the labels `name` and `edu`, and contains `edu`. */
  lemma EduSite(name: string, h: string)
    requires '.' !in name && h == name + ".edu"
    ensures Contains(h, "edu")
    ensures SplitDots(h) == [name, "edu"]
  {
    assert OccursAt(h, "edu", |name| + 1);
    ContainsIff(h, "edu");
    assert h == JoinDots([name, "edu"]);
    SplitJoin([name, "edu"]);
  }

  /** The website `https://www.<name>.edu` is probed, for the site `<name>.edu`. */
  lemma UniversityWebsite(name: string)
    requires '.' !in name
    requires !Contains(name + ".edu", Https) && !Contains(name + ".edu", "www")
    ensures var website := Https + "www." + name + ".edu";
      && Contains(website, "edu")
      && Normalize(website) == name + ".edu"
      && SplitDots(Normalize(website)) == [name, "edu"]
  {
    var h := name + ".edu";
    EduSite(name, h);
    Assoc(Https + "www.", name, ".edu");
    NormalizeLeading(h);
    ContainsInSuffix(Https + "www.", h, "edu");
  }

  /** The fallback candidate for that site, written out. */
  lemma UniversityFallback(name: string, vendor: string)
    ensures Https + JoinDots([[name, "edu"][0], vendor] + [name, "edu"][1..]) == Https + name + "." + vendor + ".edu"
  {
    assert [[name, "edu"][0], vendor] + [name, "edu"][1..] == [name, vendor, "edu"];
    assert JoinDots([name, vendor, "edu"]) == name + "." + (vendor + "." + "edu") by {
      assert [name, vendor, "edu"][1..] == [vendor, "edu"];
      assert [vendor, "edu"][1..] == ["edu"];
      assert JoinDots(["edu"]) == "edu";
      assert JoinDots([vendor, "edu"]) == vendor + "." + "edu";
    }
    assert "." + "edu" == ".edu";
    Assoc(name + ".", vendor, ".edu");
    Assoc(Https, name + "." + vendor, ".edu");
    Assoc(Https, name + ".", vendor);
    Assoc(Https, name, ".");
  }

  /**
   * A site `https://www.<name>.edu` gives `https://<vendor>.<name>.edu` and
   * `https://<name>.<vendor>.edu`.
   */
  lemma UniversitySite(name: string, vendor: string)
    requires '.' !in name
    requires !Contains(name + ".edu", Https) && !Contains(name + ".edu", "www")
    ensures PlanFor(Some(Https + "www." + name + ".edu"), vendor)
         == Probe(Https + vendor + "." + name + ".edu", Https + name + "." + vendor + ".edu")
  {
    UniversityWebsite(name);
    UniversityFallback(name, vendor);
    Assoc(Https + vendor + ".", name, ".edu");
  }

  /** The documented example: `https://www.example.edu` and the `qualtrics` vendor. */
  lemma QualtricsExample(name: string, vendor: string)
    requires name == "example" && vendor == "qualtrics"
    ensures PlanFor(Some(Https + "www." + name + ".edu"), vendor)
         == Probe(Https + vendor + "." + name + ".edu", Https + name + "." + vendor + ".edu")
  {
    ExampleName(name);
    UniversitySite(name, vendor);
  }

  /** The strings of the documented example, spelled out. */
  lemma QualtricsExampleSpelled(name: string, vendor: string)
    requires name == "example" && vendor == "qualtrics"
    ensures Https + "www." + name + ".edu" == "https://www.example.edu"
    ensures Https + vendor + "." + name + ".edu" == "https://qualtrics.example.edu"
    ensures Https + name + "." + vendor + ".edu" == "https://example.qualtrics.edu"
  {
  }

  lemma ExampleName(name: string)
    requires name == "example"
    ensures '.' !in name && !Contains(name + ".edu", Https) && !Contains(name + ".edu", "www")
  {
    MissingChar(name + ".edu", Https, 0);
    MissingChar(name + ".edu", "www", 0);
  }

  /** A site outside `.edu` is never probed. */
  lemma NonEduSkipped(website: string, vendor: string)
    requires website == "https://example.com"
    ensures PlanFor(Some(website), vendor) == Skip
  {
    MissingChar(website, "edu", 1);
  }
}
