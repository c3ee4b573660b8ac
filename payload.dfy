/**
 * The request payload built when the user asks for recommendations
 * (frontend2.py:217-228), and the application link shown for a job of the
 * response (frontend2.py:245-251).
 */
module Payload {
  import opened Wrappers

  // ---------------------------------------------------------------- strip

  /** The characters Python's `str.isspace` accepts, which `str.strip()` removes. */
  const Whitespace: set<char> := {
    '\t', '\n', '\U{B}', '\U{C}', '\r',                    // tab, line feed, vertical tab, form feed, carriage return
    '\U{1C}', '\U{1D}', '\U{1E}', '\U{1F}',                  // file, group, record and unit separators
    ' ', '\U{85}', '\U{A0}', '\U{1680}',
    '\U{2000}', '\U{2001}', '\U{2002}', '\U{2003}', '\U{2004}', '\U{2005}',
    '\U{2006}', '\U{2007}', '\U{2008}', '\U{2009}', '\U{200A}',
    '\U{2028}', '\U{2029}', '\U{202F}', '\U{205F}', '\U{3000}'
  }

  predicate IsSpace(c: char) {
    c in Whitespace
  }

  /** Every character of `s[lo..hi]` is whitespace. */
  ghost predicate SpaceBetween(s: string, lo: int, hi: int) {
    forall k :: lo <= k < hi && 0 <= k < |s| ==> IsSpace(s[k])
  }

  /** `r` sits at position `i` of `s`, and everything of `s` before and after it is whitespace. */
  ghost predicate TrimmedAt(s: string, r: string, i: int) {
    && 0 <= i <= |s| - |r|
    && r == s[i..i + |r|]
    && SpaceBetween(s, 0, i)
    && SpaceBetween(s, i + |r|, |s|)
  }

  /** `r` is `s` with a run of whitespace cut from either end and nothing else. */
  ghost predicate TrimmedFrom(s: string, r: string) {
    exists i :: TrimmedAt(s, r, i)
  }

  /** Neither end of `r` is whitespace. */
  predicate Stripped(r: string) {
    r == [] || (!IsSpace(r[0]) && !IsSpace(r[|r| - 1]))
  }

  /** Where `str.lstrip()` cuts `s`, scanning from `lo`: the first non-whitespace position at or after `lo`. */
  function FirstNonSpace(s: string, lo: nat): (i: nat)
    requires lo <= |s|
    ensures lo <= i <= |s|
    ensures SpaceBetween(s, lo, i)
    ensures i == |s| || !IsSpace(s[i])
    decreases |s| - lo
  {
    if lo < |s| && IsSpace(s[lo]) then FirstNonSpace(s, lo + 1) else lo
  }

  /** Where `str.rstrip()` cuts `s[..hi]`, not going below `lo`: the end of its last non-whitespace character. */
  function TrailStart(s: string, lo: nat, hi: nat): (j: nat)
    requires lo <= hi <= |s|
    ensures lo <= j <= hi
    ensures SpaceBetween(s, j, hi)
    ensures j == lo || !IsSpace(s[j - 1])
    decreases hi - lo
  {
    if lo < hi && IsSpace(s[hi - 1]) then TrailStart(s, lo, hi - 1) else hi
  }

  /** Python's `str.strip()`. */
  function Strip(s: string): (r: string)
    ensures Stripped(r)
    ensures TrimmedFrom(s, r)
  {
    var i := FirstNonSpace(s, 0);
    var j := TrailStart(s, i, |s|);
    assert TrimmedAt(s, s[i..j], i);
    s[i..j]
  }

  /** Stripping twice is stripping once. */
  lemma StripIdempotent(s: string)
    ensures Strip(Strip(s)) == Strip(s)
  {
    var r := Strip(s);
    assert TrimmedAt(r, r, 0);
    StripUnique(r, r);
  }

  /** `FirstNonSpace` stops at the first non-whitespace position, wherever it is. */
  lemma {:induction false} FirstNonSpaceAt(s: string, lo: nat, i: nat)
    requires lo <= i <= |s| && SpaceBetween(s, lo, i) && (i == |s| || !IsSpace(s[i]))
    ensures FirstNonSpace(s, lo) == i
    decreases i - lo
  {
    if lo < i {
      FirstNonSpaceAt(s, lo + 1, i);
    }
  }

  /** `TrailStart` stops after the last non-whitespace character, wherever it is. */
  lemma {:induction false} TrailStartAt(s: string, lo: nat, j: nat, hi: nat)
    requires lo <= j <= hi <= |s| && SpaceBetween(s, j, hi) && (j == lo || !IsSpace(s[j - 1]))
    ensures TrailStart(s, lo, hi) == j
    decreases hi - j
  {
    if j < hi {
      TrailStartAt(s, lo, j, hi - 1);
    }
  }

  /** A stripped string that `TrimmedFrom` admits is exactly `Strip`'s result: the characterisation is unique. */
  lemma {:induction false} StripUnique(s: string, r: string)
    requires TrimmedFrom(s, r) && Stripped(r)
    ensures r == Strip(s)
  {
    var i :| TrimmedAt(s, r, i);
    var j := i + |r|;
    if r == [] {
      assert SpaceBetween(s, 0, |s|);
      FirstNonSpaceAt(s, 0, |s|);
      TrailStartAt(s, |s|, |s|, |s|);
    } else {
      assert s[i] == r[0] && s[j - 1] == r[|r| - 1];
      FirstNonSpaceAt(s, 0, i);
      TrailStartAt(s, i, j, |s|);
    }
  }

  // ---------------------------------------------------------------- split

  /** `str.count(sep)` for a one-character separator. */
  function Count(s: string, c: char): nat {
    if s == [] then 0 else (if s[0] == c then 1 else 0) + Count(s[1..], c)
  }

  /** `sep.join(parts)`, the inverse of `Split`. */
  function Join(parts: seq<string>, sep: char): string
    requires |parts| > 0
  {
    if |parts| == 1 then parts[0] else parts[0] + [sep] + Join(parts[1..], sep)
  }

  lemma {:induction false} JoinCons(c: char, parts: seq<string>, sep: char)
    requires |parts| > 0
    ensures Join([[c] + parts[0]] + parts[1..], sep) == [c] + Join(parts, sep)
  {
    var q := [[c] + parts[0]] + parts[1..];
    assert q[1..] == parts[1..];
  }

  /** Python's `s.split(sep)`: the pieces between the separators, empty pieces included. */
  function Split(s: string, sep: char): (r: seq<string>)
    ensures |r| == Count(s, sep) + 1
    ensures forall k :: 0 <= k < |r| ==> sep !in r[k]
    ensures Join(r, sep) == s
  {
    if s == [] then [[]]
    else
      var rest := Split(s[1..], sep);
      if s[0] == sep then
        assert s == [sep] + s[1..];
        [[]] + rest
      else
        JoinCons(s[0], rest, sep);
        assert s == [s[0]] + s[1..];
        [[s[0]] + rest[0]] + rest[1..]
  }

  /** Splitting the join of separator-free pieces gives back the pieces. */
  lemma {:induction false} SplitJoin(parts: seq<string>, sep: char)
    requires |parts| > 0
    requires forall k :: 0 <= k < |parts| ==> sep !in parts[k]
    ensures Split(Join(parts, sep), sep) == parts
  {
    if |parts| == 1 {
      NoSeparator(parts[0], sep);
    } else {
      SplitJoin(parts[1..], sep);
      SplitPrefix(parts[0], Join(parts[1..], sep), sep);
      assert [parts[0]] + parts[1..] == parts;
    }
  }

  lemma {:induction false} NoSeparator(s: string, sep: char)
    requires sep !in s
    ensures Split(s, sep) == [s]
  {
    if s != [] {
      assert sep !in s[1..] by { forall k | 0 <= k < |s| - 1 ensures s[1..][k] != sep { assert s[1..][k] == s[k + 1]; } }
      NoSeparator(s[1..], sep);
      assert [s[0]] + s[1..] == s;
    }
  }

  lemma {:induction false} SplitPrefix(p: string, t: string, sep: char)
    requires sep !in p
    ensures Split(p + [sep] + t, sep) == [p] + Split(t, sep)
  {
    if p == [] {
      assert p + [sep] + t == [sep] + t;
      assert ([sep] + t)[1..] == t;
    } else {
      var s := p + [sep] + t;
      assert s[0] == p[0];
      assert s[1..] == p[1..] + [sep] + t;
      assert sep !in p[1..] by { forall k | 0 <= k < |p| - 1 ensures p[1..][k] != sep { assert p[1..][k] == p[k + 1]; } }
      SplitPrefix(p[1..], t, sep);
      assert [p[0]] + p[1..] == p;
    }
  }

  /** The list comprehension `[x.strip() for x in s.split(",")]`. */
  function CommaList(s: string): (r: seq<string>)
    ensures |r| == Count(s, ',') + 1
    ensures forall k :: 0 <= k < |r| ==> Stripped(r[k]) && TrimmedFrom(Split(s, ',')[k], r[k])
  {
    var pieces := Split(s, ',');
    seq(|pieces|, k requires 0 <= k < |pieces| => Strip(pieces[k]))
  }

  // ---------------------------------------------------------------- payload

  /** The JSON body posted to the recommendation webhook. */
  datatype Request = Request(name: string, gmail: string, skills: seq<string>, education: string, interests: seq<string>)

  /**
   * The "Get Recommendations" branch: every field must be non-empty
   * (otherwise the user is warned and nothing is sent); skills and interests
   * are sent as stripped comma lists, the other fields as typed.
   */
  function BuildRequest(name: string, gmail: string, skills: string, education: string, interests: string): (r: Option<Request>)
    ensures r.None? <==> name == "" || gmail == "" || skills == "" || education == "" || interests == ""
    ensures r.Some? ==> r.value.name == name && r.value.gmail == gmail && r.value.education == education
    ensures r.Some? ==> |r.value.skills| == Count(skills, ',') + 1 && |r.value.interests| == Count(interests, ',') + 1
    ensures r.Some? ==> forall k :: 0 <= k < |r.value.skills| ==> r.value.skills[k] == Strip(Split(skills, ',')[k])
    ensures r.Some? ==> forall k :: 0 <= k < |r.value.interests| ==> r.value.interests[k] == Strip(Split(interests, ',')[k])
  {
    if name == "" || gmail == "" || skills == "" || education == "" || interests == "" then None
    else Some(Request(name, gmail, CommaList(skills), education, CommaList(interests)))
  }

  // ---------------------------------------------------------------- job link

  /** One entry of a job's `apply_options` list: its `link` key, absent or `null` as `None`. */
  datatype ApplyOption = ApplyOption(link: Option<string>)

  /** The parts of a job entry that decide its link; `applyOptions` is `None` when the key is absent. */
  datatype Job = Job(link: Option<string>, applyOptions: Option<seq<ApplyOption>>)

  /** Python truthiness of a string-or-null value. */
  predicate Truthy(v: Option<string>) {
    v.Some? && v.value != ""
  }

  datatype LinkError = IndexError

  /**
   * `job.get('link') or job.get('apply_options', [{}])[0].get('link')` as
   * written: an empty `apply_options` list raises `IndexError`.
   */
  function JobLinkAsWritten(job: Job): (r: Result<Option<string>, LinkError>)
    ensures Truthy(job.link) ==> r == Success(job.link)
    ensures r.Failure? <==> !Truthy(job.link) && job.applyOptions == Some([])
    ensures !Truthy(job.link) && job.applyOptions.None? ==> r == Success(None)
    ensures !Truthy(job.link) && job.applyOptions.Some? && |job.applyOptions.value| > 0 ==>
              r == Success(job.applyOptions.value[0].link)
  {
    if Truthy(job.link) then Success(job.link)
    else match job.applyOptions
      case None => Success(None)
      case Some(options) => if |options| == 0 then Failure(IndexError) else Success(options[0].link)
  }

  /** A job whose link is falsy and whose `apply_options` list is empty makes the as-written expression raise. */
  lemma EmptyApplyOptionsRaises()
    ensures JobLinkAsWritten(Job(None, Some([]))) == Failure(IndexError)
    ensures JobLink(Job(None, Some([]))) == None
  {
  }

  /**
   * The job link with the fallback as evidently intended: the top-level link
   * when truthy, otherwise the first application option's link, and no link
   * when there is no option at all.
   */
  function JobLink(job: Job): (r: Option<string>)
    ensures Truthy(r) <==> Truthy(job.link) ||
                           (job.applyOptions.Some? && |job.applyOptions.value| > 0 && Truthy(job.applyOptions.value[0].link))
    ensures Truthy(job.link) ==> r == job.link
    ensures JobLinkAsWritten(job).Success? ==> r == JobLinkAsWritten(job).value
  {
    if Truthy(job.link) then job.link
    else match job.applyOptions
      case Some(options) => if |options| == 0 then None else options[0].link
      case None => None
  }

  /**
   * What the page shows for a job: "Apply Here" with `r`'s link, or the
   * no-link note when `r` is `None`. Wherever the as-written expression does
   * not raise, this is what the page shows for its value.
   */
  function ShownLink(job: Job): (r: Option<string>)
    ensures r.Some? ==> r.value != ""
    ensures r.Some? <==> Truthy(job.link) ||
                         (job.applyOptions.Some? && |job.applyOptions.value| > 0 && Truthy(job.applyOptions.value[0].link))
    ensures JobLinkAsWritten(job).Success? ==>
              (r.Some? <==> Truthy(JobLinkAsWritten(job).value)) && (r.Some? ==> r == JobLinkAsWritten(job).value)
  {
    var link := JobLink(job);
    if Truthy(link) then link else None
  }
}
