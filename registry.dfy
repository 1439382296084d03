/** The short-code registry: the redirect lookup of a code's original URL. */
module Registry {
  import opened Wrappers
  import opened Schema

  predicate CodeInUse(urls: seq<UrlRow>, code: string)
  {
    exists i :: 0 <= i < |urls| && urls[i].shortenedUrl == code
  }

  /** The UNIQUE constraint on `urls.shortened_url`. */
  ghost predicate CodesUnique(urls: seq<UrlRow>)
  {
    forall i, j :: 0 <= i < j < |urls| ==> urls[i].shortenedUrl != urls[j].shortenedUrl
  }

  /** The original URL of the first row carrying `code`, or None when no row does. */
  function Lookup(urls: seq<UrlRow>, code: string): (r: Option<string>)
    ensures r.None? <==> !CodeInUse(urls, code)
    ensures r.Some? ==> exists i :: 0 <= i < |urls| && urls[i].shortenedUrl == code && urls[i].originalUrl == r.value
  {
    if urls == [] then None
    else if urls[0].shortenedUrl == code then Some(urls[0].originalUrl)
    else
      var rest := Lookup(urls[1..], code);
      assert CodeInUse(urls, code) <==> CodeInUse(urls[1..], code) by {
        if CodeInUse(urls, code) {
          var i :| 0 <= i < |urls| && urls[i].shortenedUrl == code;
          assert urls[1..][i - 1].shortenedUrl == code;
        }
        if CodeInUse(urls[1..], code) {
          var i :| 0 <= i < |urls| - 1 && urls[1..][i].shortenedUrl == code;
          assert urls[i + 1].shortenedUrl == code;
        }
      }
      if rest.Some? then
        var i :| 0 <= i < |urls| - 1 && urls[1..][i].shortenedUrl == code && urls[1..][i].originalUrl == rest.value;
        assert urls[i + 1] == urls[1..][i];
        rest
      else rest
  }

  /** With unique codes, the lookup answers with the one row that carries the code. */
  lemma LookupUnique(urls: seq<UrlRow>, i: nat)
    requires CodesUnique(urls) && i < |urls|
    ensures Lookup(urls, urls[i].shortenedUrl) == Some(urls[i].originalUrl)
  {
    var r := Lookup(urls, urls[i].shortenedUrl);
    var j :| 0 <= j < |urls| && urls[j].shortenedUrl == urls[i].shortenedUrl && urls[j].originalUrl == r.value;
    assert i == j;
  }

  /** A row with a fresh code keeps codes unique, and redirect then resolves it to its URL. */
  lemma InsertFresh(urls: seq<UrlRow>, row: UrlRow)
    requires CodesUnique(urls) && !CodeInUse(urls, row.shortenedUrl)
    ensures CodesUnique(urls + [row])
    ensures Lookup(urls + [row], row.shortenedUrl) == Some(row.originalUrl)
    ensures forall c :: c != row.shortenedUrl ==> Lookup(urls + [row], c) == Lookup(urls, c)
  {
    var u := urls + [row];
    assert u[|urls|] == row;
    forall i, j | 0 <= i < j < |u| ensures u[i].shortenedUrl != u[j].shortenedUrl {
      if j == |urls| {
        assert u[i] == urls[i];
      } else {
        assert u[i] == urls[i] && u[j] == urls[j];
      }
    }
    LookupUnique(u, |urls|);
    forall c | c != row.shortenedUrl ensures Lookup(u, c) == Lookup(urls, c) {
      LookupPrefix(urls, row, c);
    }
  }

  /** Appending a row with another code leaves the lookup of `c` as it was. */
  lemma {:induction false} LookupPrefix(urls: seq<UrlRow>, row: UrlRow, c: string)
    requires row.shortenedUrl != c
    ensures Lookup(urls + [row], c) == Lookup(urls, c)
  {
    if urls != [] {
      assert (urls + [row])[1..] == urls[1..] + [row];
      LookupPrefix(urls[1..], row, c);
    } else {
      assert [] + [row] == [row];
      assert [row][1..] == [];
    }
  }
}
