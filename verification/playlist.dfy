/** The playlist resolver (convert.py): pick the entry lines of an M3U
    playlist, fetch each entry's page, and turn the first thumbnail link on
    that page into the address of the stream's `index.m3u8`. HTTP is taken
    as input: a fetch is a `Response` value and the per-entry fetches are a
    function from URL to `Response`. */
module Playlist {
  import opened Optional
  import Sequences
  import opened Text

  /** How many leading white-space characters `strip()` removes. */
  function LeadingSpace(s: string): nat {
    |s| - |TrimLeft(Py, s)|
  }

  /** `s.strip()`: `s` without its leading and trailing white space. */
  function Strip(s: string): (t: string)
    ensures |t| <= |s|
  {
    TrimRight(Py, TrimLeft(Py, s))
  }

  /** The stripped line is a slice of the line that neither starts nor ends
      with white space. */
  lemma StripSlice(s: string)
    ensures var t := Strip(s);
      && LeadingSpace(s) + |t| <= |s| && t == s[LeadingSpace(s)..LeadingSpace(s) + |t|]
      && (|t| == 0 || (!IsSpace(Py, t[0]) && !IsSpace(Py, t[|t| - 1])))
  {
    var left := TrimLeft(Py, s);
    var t := TrimRight(Py, left);
    var i := |s| - |left|;
    TrimLeftSpec(Py, s);
    TrimRightSpec(Py, left);
    assert left == s[i..];
    assert t == left[..|t|];
    assert t == s[i..i + |t|];
    if |t| > 0 {
      assert t[0] == left[0];
    }
  }

  /** Everything `strip()` removes is white space. */
  lemma StripRemovesOnlySpace(s: string)
    ensures forall k :: 0 <= k < LeadingSpace(s) ==> IsSpace(Py, s[k])
    ensures forall k :: LeadingSpace(s) + |Strip(s)| <= k < |s| ==> IsSpace(Py, s[k])
  {
    var left := TrimLeft(Py, s);
    var t := TrimRight(Py, left);
    var i := |s| - |left|;
    TrimLeftSpec(Py, s);
    TrimRightSpec(Py, left);
    assert left == s[i..];
    forall k | i + |t| <= k < |s| ensures IsSpace(Py, s[k]) {
      assert s[k] == left[k - i];
      assert IsSpace(Py, left[k - i]);
    }
  }

  /** A playlist line that names an entry: not blank, and not starting with
      `#` before stripping. A line with white space before its `#` counts. */
  predicate IsEntryLine(line: string) {
    Strip(line) != "" && !("#" <= line)
  }

  /** The entries of a playlist: its entry lines, stripped, in order. */
  function Entries(lines: seq<string>): (r: seq<string>)
    ensures |r| <= |lines|
    ensures forall e :: e in r ==> e != ""
  {
    if |lines| == 0 then []
    else if IsEntryLine(lines[0]) then [Strip(lines[0])] + Entries(lines[1..])
    else Entries(lines[1..])
  }

  /** Entry selection works line by line: the entries of a concatenation are
      the entries of each part. */
  lemma {:induction false} EntriesAppend(a: seq<string>, b: seq<string>)
    ensures Entries(a + b) == Entries(a) + Entries(b)
    decreases |a|
  {
    if |a| == 0 {
      assert a + b == b;
    } else {
      assert (a + b)[1..] == a[1..] + b;
      EntriesAppend(a[1..], b);
    }
  }

  /** Every entry line contributes its stripped text. */
  lemma {:induction false} EntriesComplete(lines: seq<string>)
    ensures forall i :: 0 <= i < |lines| && IsEntryLine(lines[i]) ==> Strip(lines[i]) in Entries(lines)
    decreases |lines|
  {
    if |lines| > 0 {
      var tail := lines[1..];
      EntriesComplete(tail);
      forall i | 0 < i < |lines| && IsEntryLine(lines[i]) ensures Strip(lines[i]) in Entries(lines) {
        assert lines[i] == tail[i - 1];
      }
    }
  }

  /** Every entry comes from an entry line. */
  lemma {:induction false} EntriesSound(lines: seq<string>, e: string)
    requires e in Entries(lines)
    ensures exists i :: 0 <= i < |lines| && IsEntryLine(lines[i]) && e == Strip(lines[i])
    decreases |lines|
  {
    var tail := lines[1..];
    if !(IsEntryLine(lines[0]) && e == Strip(lines[0])) {
      EntriesSound(tail, e);
      var i :| 0 <= i < |tail| && IsEntryLine(tail[i]) && e == Strip(tail[i]);
      assert lines[i + 1] == tail[i];
    }
  }

  /** A line whose first character is white space is an entry whenever it is
      not blank, even when its text starts with `#` (an indented directive). */
  lemma IndentedLineIsEntry(line: string)
    requires |line| > 0 && IsSpace(Py, line[0]) && Strip(line) != ""
    ensures Entries([line]) == [Strip(line)]
  {
    assert !("#" <= line);
    assert [line][1..] == [];
  }

  /** The literal text the lazy pattern starts with, ends with, and is replaced by. */
  const Thumb := "thumbnail"
  const Jpg := ".jpg"
  const Replacement := "index.m3u8"

  predicate NoNewline(s: string) {
    forall k :: 0 <= k < |s| ==> s[k] != '\n'
  }

  /** Where the shortest `.*?\.jpg` match starts in `t`: the first `.jpg`
      reached before any line break (`.` does not match `\n`). */
  function FindJpg(t: string): (k: Option<nat>)
    ensures k.Some? ==> Sequences.OccursAt(t, Jpg, k.value) && NoNewline(t[..k.value])
                        && forall j :: 0 <= j < k.value ==> !Sequences.OccursAt(t, Jpg, j)
    ensures k.None? ==> forall j :: 0 <= j <= |t| && NoNewline(t[..j]) ==> !Sequences.OccursAt(t, Jpg, j)
    decreases |t|
  {
    if Sequences.OccursAt(t, Jpg, 0) then Some(0)
    else if |t| == 0 || t[0] == '\n' then
      assert forall j :: 0 < j <= |t| ==> !NoNewline(t[..j]) by {
        forall j | 0 < j <= |t| ensures !NoNewline(t[..j]) { assert t[..j][0] == t[0]; }
      }
      None
    else
      var tail := t[1..];
      var r := FindJpg(tail);
      ShiftOccurs(t);
      if r.None? then
        assert forall j :: 0 < j <= |t| && NoNewline(t[..j]) ==> NoNewline(tail[..j - 1]) by {
          forall j | 0 < j <= |t| && NoNewline(t[..j]) ensures NoNewline(tail[..j - 1]) {
            assert tail[..j - 1] == t[..j][1..];
          }
        }
        None
      else
        var k := r.value;
        assert t[..k + 1] == [t[0]] + tail[..k];
        Some(k + 1)
  }

  /** An occurrence at a positive index of `t` is one at the previous index of its tail. */
  lemma ShiftOccurs(t: string)
    requires |t| > 0
    ensures forall j :: 0 < j <= |t| ==> (Sequences.OccursAt(t, Jpg, j) <==> Sequences.OccursAt(t[1..], Jpg, j - 1))
  {
    forall j | 0 < j <= |t| ensures Sequences.OccursAt(t, Jpg, j) <==> Sequences.OccursAt(t[1..], Jpg, j - 1) {
      Sequences.OccursShift(t, Jpg, j);
    }
  }

  /** `re.sub(r"thumbnail.*?\.jpg", "index.m3u8", s)`: scanning left to
      right, each shortest `thumbnail…​.jpg` span is replaced and the scan
      resumes after it; every other character is copied. */
  function Rewrite(s: string): string
    decreases |s|
  {
    if |s| == 0 then ""
    else if Sequences.OccursAt(s, Thumb, 0) && FindJpg(s[|Thumb|..]).Some? then
      Replacement + Rewrite(s[|Thumb| + FindJpg(s[|Thumb|..]).value + |Jpg|..])
    else [s[0]] + Rewrite(s[1..])
  }

  /** The rewrite never lengthens a line: each replaced span is at least
      as long as `thumbnail.jpg`, longer than `index.m3u8`. */
  lemma {:induction false} RewriteNeverLonger(s: string)
    ensures |Rewrite(s)| <= |s|
    decreases |s|
  {
    if |s| > 0 {
      if Sequences.OccursAt(s, Thumb, 0) && FindJpg(s[|Thumb|..]).Some? {
        RewriteNeverLonger(s[|Thumb| + FindJpg(s[|Thumb|..]).value + |Jpg|..]);
      } else {
        RewriteNeverLonger(s[1..]);
      }
    }
  }

  /** Text before the first place a `thumbnail` starts is copied unchanged. */
  lemma {:induction false} RewriteKeepsPrefix(u: string, t: string)
    requires forall i :: 0 <= i < |u| ==> !Sequences.OccursAt(u + t, Thumb, i)
    ensures Rewrite(u + t) == u + Rewrite(t)
    decreases |u|
  {
    if |u| > 0 {
      var s := u + t;
      assert !Sequences.OccursAt(s, Thumb, 0);
      assert s[1..] == u[1..] + t;
      forall i | 0 <= i < |u[1..]| ensures !Sequences.OccursAt(u[1..] + t, Thumb, i) {
        assert !Sequences.OccursAt(s, Thumb, i + 1);
        if i + |Thumb| <= |u[1..] + t| {
          assert s[i + 1..i + 1 + |Thumb|] == (u[1..] + t)[i..i + |Thumb|];
        }
      }
      RewriteKeepsPrefix(u[1..], t);
      assert u == [u[0]] + u[1..];
    } else {
      assert u + t == t;
    }
  }

  /** A line in which no `thumbnail` is followed by a closing `.jpg` (before
      a line break) has no span to replace and is returned unchanged, as for
      `http://cdn/thumbnail.png`. */
  lemma {:induction false} RewriteWithoutSpan(s: string)
    requires forall i :: 0 <= i <= |s| && Sequences.OccursAt(s, Thumb, i) ==> FindJpg(s[i + |Thumb|..]).None?
    ensures Rewrite(s) == s
    decreases |s|
  {
    if |s| > 0 {
      var t := s[1..];
      forall i | 0 <= i <= |t| && Sequences.OccursAt(t, Thumb, i) ensures FindJpg(t[i + |Thumb|..]).None? {
        Sequences.OccursShift(s, Thumb, i + 1);
        assert t[i + |Thumb|..] == s[i + 1 + |Thumb|..];
      }
      RewriteWithoutSpan(t);
      assert s == [s[0]] + t;
    }
  }

  /** A line without `thumbnail` is returned unchanged. */
  lemma RewriteWithoutThumbnail(s: string)
    requires !Sequences.Contains(s, Thumb)
    ensures Rewrite(s) == s
  {
    Sequences.ContainsIff(s, Thumb);
    assert s + "" == s;
    RewriteKeepsPrefix(s, "");
  }

  /** The lazy match after `thumbnail` stops at the first `.jpg`. */
  lemma FindJpgStopsAtFirst(m: string, v: string)
    requires NoNewline(m)
    requires forall j :: 0 <= j < |m| ==> !Sequences.OccursAt(m + Jpg, Jpg, j)
    ensures FindJpg(m + Jpg + v) == Some(|m|)
  {
    var after := m + Jpg + v;
    var head := m + Jpg;
    assert after[..|head|] == head;
    assert after[|m|..|m| + |Jpg|] == Jpg;
    assert after[..|m|] == m;
    forall j | 0 <= j < |m| ensures !Sequences.OccursAt(after, Jpg, j) {
      assert !Sequences.OccursAt(head, Jpg, j);
      assert j + |Jpg| <= |head|;
      assert after[j..j + |Jpg|] == head[j..j + |Jpg|];
    }
    assert Sequences.OccursAt(after, Jpg, |m|) && NoNewline(after[..|m|]);
    var k := FindJpg(after);
    assert k.Some?;
    assert k.value <= |m|;
    assert k.value >= |m|;
  }

  /** A line that starts with a shortest `thumbnail…​.jpg` span loses the span
      to `index.m3u8`, and the scan resumes right after it. */
  lemma RewriteSpan(m: string, v: string)
    requires NoNewline(m)
    requires forall j :: 0 <= j < |m| ==> !Sequences.OccursAt(m + Jpg, Jpg, j)
    ensures Rewrite(Thumb + m + Jpg + v) == Replacement + Rewrite(v)
  {
    var t := Thumb + m + Jpg + v;
    assert t[..|Thumb|] == Thumb;
    assert t[|Thumb|..] == m + Jpg + v;
    FindJpgStopsAtFirst(m, v);
    assert t[|Thumb| + |m| + |Jpg|..] == v;
  }

  /** The first span: when `thumbnail` first occurs after `u` and the nearest
      following `.jpg` ends `m`, the line becomes `u`, then `index.m3u8`,
      then the rewrite of what follows the span. */
  lemma RewriteFirstSpan(u: string, m: string, v: string)
    requires forall i :: 0 <= i < |u| ==> !Sequences.OccursAt(u + (Thumb + m + Jpg + v), Thumb, i)
    requires NoNewline(m)
    requires forall j :: 0 <= j < |m| ==> !Sequences.OccursAt(m + Jpg, Jpg, j)
    ensures Rewrite(u + (Thumb + m + Jpg + v)) == u + (Replacement + Rewrite(v))
  {
    var w := Thumb + m + Jpg + v;
    RewriteKeepsPrefix(u, w);
    RewriteSpan(m, v);
  }

  /** The match is the shortest one: in `thumbnail.jpg.jpg` only the first
      `.jpg` closes the span. */
  lemma RewriteIsLazy()
    ensures Rewrite(Thumb + Jpg + Jpg) == Replacement + Jpg
  {
    assert Thumb + Jpg + Jpg == Thumb + "" + Jpg + Jpg;
    RewriteSpan("", Jpg);
    RewriteWithoutThumbnail(Jpg);
  }

  /** Whether a stripped page line is the stream link `resolve_true_url` looks for. */
  predicate Qualifies(line: string) {
    "http" <= line && Sequences.Contains(line, Thumb)
  }

  /** The index of the first qualifying stripped line at or after `from`,
      `|lines|` when there is none. */
  function FirstQualifying(lines: seq<string>, from: nat): (k: nat)
    requires from <= |lines|
    ensures from <= k <= |lines|
    ensures k < |lines| ==> Qualifies(Strip(lines[k]))
    ensures forall j :: from <= j < k ==> !Qualifies(Strip(lines[j]))
    decreases |lines| - from
  {
    if from == |lines| then from
    else if Qualifies(Strip(lines[from])) then from
    else FirstQualifying(lines, from + 1)
  }

  /** The outcome of one HTTP GET: a status and the body split into lines, or
      a failure (connection error, timeout) that raises. */
  datatype Response = Response(status: int, lines: seq<string>) | Failed

  /** `resolve_true_url` on the page fetched for one entry: the rewrite of the
      first qualifying stripped line when the status is 200, otherwise `None`. */
  function ResolveTrueUrl(resp: Response): (r: Option<string>)
    ensures r.Some? ==> resp.Response? && resp.status == 200
  {
    if resp.Failed? || resp.status != 200 then None
    else
      var k := FirstQualifying(resp.lines, 0);
      if k < |resp.lines| then Some(Rewrite(Strip(resp.lines[k]))) else None
  }

  /** A URL is resolved exactly when its page came back with status 200 and
      holds a qualifying line. */
  lemma ResolvedWhenQualifying(resp: Response)
    ensures ResolveTrueUrl(resp).Some? <==>
              resp.Response? && resp.status == 200 && exists i :: 0 <= i < |resp.lines| && Qualifies(Strip(resp.lines[i]))
  {
    if resp.Response? && resp.status == 200 {
      var k := FirstQualifying(resp.lines, 0);
      if k == |resp.lines| {
        assert forall i :: 0 <= i < |resp.lines| ==> !Qualifies(Strip(resp.lines[i]));
      }
    }
  }

  /** The first qualifying line decides the result. */
  lemma FirstMatchWins(lines: seq<string>, i: int)
    requires 0 <= i < |lines| && Qualifies(Strip(lines[i]))
    requires forall j :: 0 <= j < i ==> !Qualifies(Strip(lines[j]))
    ensures ResolveTrueUrl(Response(200, lines)) == Some(Rewrite(Strip(lines[i])))
  {
    var k := FirstQualifying(lines, 0);
    assert k <= i;
    assert k >= i;
  }

  /** Lines after a qualifying one are never looked at. */
  lemma {:induction false} LaterLinesIgnored(lines: seq<string>, more: seq<string>)
    requires exists i :: 0 <= i < |lines| && Qualifies(Strip(lines[i]))
    ensures ResolveTrueUrl(Response(200, lines + more)) == ResolveTrueUrl(Response(200, lines))
  {
    var k := FirstQualifying(lines, 0);
    assert (lines + more)[k] == lines[k];
    forall j | 0 <= j < k ensures !Qualifies(Strip((lines + more)[j])) {
      assert (lines + more)[j] == lines[j];
    }
    FirstMatchWins(lines + more, k);
  }

  /** One element of the JSON output. */
  datatype Record = Record(originalUrl: string, resolvedUrl: Option<string>)

  /** `process_m3u_url` without the file write: `None` when the playlist fetch
      fails or `raise_for_status` raises (a 4xx or 5xx status), otherwise one
      record per entry, in entry order, resolved with `fetch`. */
  method ProcessM3u(resp: Response, fetch: string -> Response) returns (r: Option<seq<Record>>)
    ensures r.Some? <==> resp.Response? && !(400 <= resp.status < 600)
    ensures r.Some? ==> |r.value| == |Entries(resp.lines)|
    ensures r.Some? ==> forall k :: 0 <= k < |r.value| ==>
              r.value[k] == Record(Entries(resp.lines)[k], ResolveTrueUrl(fetch(Entries(resp.lines)[k])))
  {
    if resp.Failed? || 400 <= resp.status < 600 {
      return None;
    }
    var urls := Entries(resp.lines);
    var results: seq<Record> := [];
    var n := 0;
    while n < |urls|
      invariant n <= |urls|
      invariant |results| == n
      invariant forall k :: 0 <= k < n ==> results[k] == Record(urls[k], ResolveTrueUrl(fetch(urls[k])))
    {
      results := results + [Record(urls[n], ResolveTrueUrl(fetch(urls[n])))];
      n := n + 1;
    }
    return Some(results);
  }
}
