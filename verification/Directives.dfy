/**
  What the words of a Cache-Control line mean to the cache: for any printed line, which names and
  seconds the accessors find in it, and which replies it lets in.
 */
module Directives {
  import opened Base
  import opened Http
  import opened Digits
  import Csv
  import QuotedString
  import CC = CacheControl

  type Items = seq<CC.Item>

  predicate Valid(items: Items) {
    forall i :: 0 <= i < |items| ==> CC.ValidItem(items[i])
  }

  predicate Named(items: Items, name: string) {
    exists i :: 0 <= i < |items| && items[i].name == name
  }

  /** Item `k` is the last of its name. */
  predicate LastOfName(items: Items, k: nat) {
    k < |items| && forall j :: k < j < |items| ==> items[j].name != items[k].name
  }

  // ----- Names -----

  lemma {:induction false} CollectNames(pairs: seq<(string, string)>, name: string)
    ensures name in CC.Collect(pairs) <==> exists i :: 0 <= i < |pairs| && pairs[i].0 == name
  {
    if pairs != [] {
      var n := |pairs| - 1;
      CollectNames(pairs[..n], name);
      if exists i :: 0 <= i < |pairs[..n]| && pairs[..n][i].0 == name {
        var i :| 0 <= i < |pairs[..n]| && pairs[..n][i].0 == name;
        assert pairs[i].0 == name;
      }
      forall i | 0 <= i < n && pairs[i].0 == name ensures name in CC.Collect(pairs[..n]) {
        assert pairs[..n][i].0 == name;
      }
    }
  }

  /** A name is found in a printed line exactly when the line has it. */
  lemma NamesRead(items: Items, name: string)
    requires Valid(items)
    ensures name in CC.Parse(CC.Print(items)) <==> Named(items, name)
  {
    CC.PrintParse(items);
    var pairs := CC.Pairs(Csv.Split(CC.Print(items)));
    CollectNames(pairs, name);
    assert forall i :: 0 <= i < |items| ==> pairs[i] == CC.ItemPair(items[i]);
    if Named(items, name) {
      var i :| 0 <= i < |items| && items[i].name == name;
      assert pairs[i].0 == name;
    }
  }

  lemma FirstLineRead(h: Header, items: Items)
    requires Get(h, "Cache-Control") == CC.Print(items)
    ensures DirectivesOf(h) == CC.Parse(CC.Print(items))
  {
    assert CC.Parse("") == map[] by {
      assert Csv.Split("") == [];
    }
  }

  /** The directives without a value that matter, on the first line of a header. */
  lemma FlagsRead(h: Header, items: Items)
    requires Valid(items) && Get(h, "Cache-Control") == CC.Print(items)
    ensures var cc := DirectivesOf(h);
            && (CC.NoStore(cc) <==> Named(items, "no-store"))
            && (CC.NoCache(cc) <==> Named(items, "no-cache"))
            && (CC.OnlyIfCached(cc) <==> Named(items, "only-if-cached"))
            && (CC.MustRevalidate(cc) <==> Named(items, "must-revalidate"))
            && (CC.MustUnderstand(cc) <==> Named(items, "must-understand"))
            && (CC.Public(cc) <==> Named(items, "public"))
            && (CC.Immutable(cc) <==> Named(items, "immutable"))
            && (CC.MaxAgePresent(cc) <==> Named(items, "max-age"))
  {
    FirstLineRead(h, items);
    NamesRead(items, "no-store");
    NamesRead(items, "no-cache");
    NamesRead(items, "only-if-cached");
    NamesRead(items, "must-revalidate");
    NamesRead(items, "must-understand");
    NamesRead(items, "public");
    NamesRead(items, "immutable");
    NamesRead(items, "max-age");
  }

  // ----- Seconds -----

  lemma ArgumentRead(h: Header, items: Items, k: nat)
    requires Valid(items) && Get(h, "Cache-Control") == CC.Print(items) && LastOfName(items, k)
    ensures var cc := DirectivesOf(h);
            items[k].name in cc && cc[items[k].name] == CC.PrintArgument(items[k].argument)
  {
    FirstLineRead(h, items);
    CC.LookupPrinted(items, k);
  }

  lemma DigitsAreToken(digits: string)
    requires digits != "" && AllDigits(digits)
    ensures IsToken(digits)
  {
    forall i | 0 <= i < |digits| ensures IsTokenChar(digits[i]) {
      assert '0' <= digits[i] <= '9';
    }
  }

  lemma DeltaReads(digits: string)
    requires digits != "" && AllDigits(digits) && Positional(digits) * 1_000_000_000 <= MAX_DURATION
    ensures CC.DeltaSeconds(digits) == Some(Positional(digits) * 1_000_000_000)
  {
    ParseIntReads(digits);
  }

  /** The nanoseconds that the last directive of its name gives when its argument is this many
      seconds, at most 9223372036. */
  lemma SecondsRead(h: Header, items: Items, k: nat, digits: string)
    requires Valid(items) && Get(h, "Cache-Control") == CC.Print(items) && LastOfName(items, k)
    requires items[k].argument == CC.Token(digits) && digits != "" && AllDigits(digits)
    requires Positional(digits) <= 9_223_372_036
    ensures var cc := DirectivesOf(h);
            var nanoseconds := Positional(digits) * 1_000_000_000;
            && (items[k].name == "max-age" ==> CC.MaxAge(cc) == Some(nanoseconds))
            && (items[k].name == "min-fresh" ==> CC.MinFresh(cc) == Some(nanoseconds))
            && (items[k].name == "max-stale" ==> CC.MaxStale(cc) == nanoseconds)
            && (items[k].name == "stale-if-error" ==> CC.StaleIfError(cc) == Some(nanoseconds))
            && (items[k].name == "stale-while-revalidate" ==> CC.StaleWhileRevalidate(cc) == Some(nanoseconds))
  {
    ArgumentRead(h, items, k);
    DeltaReads(digits);
  }

  /** Without an argument max-stale accepts any age; without the name nothing is read. */
  lemma AbsentRead(h: Header, items: Items)
    requires Valid(items) && Get(h, "Cache-Control") == CC.Print(items)
    ensures var cc := DirectivesOf(h);
            && (!Named(items, "max-age") ==> CC.MaxAge(cc).None?)
            && (!Named(items, "min-fresh") ==> CC.MinFresh(cc).None?)
            && (!Named(items, "max-stale") ==> CC.MaxStale(cc) == 0)
            && (!Named(items, "stale-if-error") ==> CC.StaleIfError(cc).None?)
            && (!Named(items, "stale-while-revalidate") ==> CC.StaleWhileRevalidate(cc).None?)
    ensures forall k: nat :: LastOfName(items, k) && items[k] == CC.Item("max-stale", CC.Absent) ==>
              CC.MaxStale(DirectivesOf(h)) == MAX_DURATION
  {
    FirstLineRead(h, items);
    NamesRead(items, "max-age");
    NamesRead(items, "min-fresh");
    NamesRead(items, "max-stale");
    NamesRead(items, "stale-if-error");
    NamesRead(items, "stale-while-revalidate");
    forall k: nat | LastOfName(items, k) && items[k] == CC.Item("max-stale", CC.Absent)
      ensures CC.MaxStale(DirectivesOf(h)) == MAX_DURATION
    {
      ArgumentRead(h, items, k);
    }
  }

  /** A number that is negative, quoted or no number at all gives no seconds. */
  lemma DeltaRejects(digits: string, c: char, more: string)
    requires AllDigits(digits) && Positional(digits) <= MAX_UINT64
    requires !('0' <= c <= '9') && (digits == "" ==> c != '+')
    ensures CC.DeltaSeconds("") == None && CC.DeltaSeconds(digits + [c] + more) == None
  {
    if digits == "" && c == '-' {
      assert (digits + [c] + more)[0] == '-';
    } else {
      ParseIntRejects(digits, c, more);
    }
  }

  /** Nor does a max-stale with such an argument accept anything stale. */
  lemma MaxStaleRejects(h: Header, items: Items, k: nat, digits: string, c: char, more: string)
    requires Valid(items) && Get(h, "Cache-Control") == CC.Print(items) && LastOfName(items, k)
    requires items[k].name == "max-stale"
    requires AllDigits(digits) && Positional(digits) <= MAX_UINT64
    requires !('0' <= c <= '9') && (digits == "" ==> c != '+')
    requires CC.PrintArgument(items[k].argument) == digits + [c] + more
    ensures CC.MaxStale(DirectivesOf(h)) == 0
  {
    ArgumentRead(h, items, k);
    DeltaRejects(digits, c, more);
  }

  // ----- The argument of no-cache -----

  /** An unquoted argument restricts no-cache to one field, none makes it unqualified. */
  lemma NoCacheArgument(h: Header, items: Items, k: nat)
    requires Valid(items) && Get(h, "Cache-Control") == CC.Print(items) && LastOfName(items, k)
    requires items[k].name == "no-cache"
    ensures var cc := DirectivesOf(h);
            && (items[k].argument.Absent? ==> CC.NoCacheUnqualified(cc))
            && (items[k].argument.Token? ==>
                  CC.NoCacheFields(cc) == items[k].argument.token && CC.NoCacheQualified(cc) &&
                    !CC.NoCacheUnqualified(cc))
  {
    ArgumentRead(h, items, k);
    assert CC.ValidItem(items[k]);
    if items[k].argument.Token? {
      assert IsTokenChar(items[k].argument.token[0]);
    }
  }

  // ----- Admission -----

  /** Which replies are stored, in the words of both first lines: none with no-store on either side;
      of the others those of a status the cache understands, and those of any other final status
      but 206 without must-understand that say public or max-age or have an Expires line. */
  lemma AdmittedIff(resp: Reply, request: Header, reqItems: Items, resItems: Items)
    requires Valid(reqItems) && Get(request, "Cache-Control") == CC.Print(reqItems)
    requires Valid(resItems) && Get(resp.header, "Cache-Control") == CC.Print(resItems)
    ensures CanStore(resp, DirectivesOf(request), DirectivesOf(resp.header)) <==>
              && !Named(resItems, "no-store") && !Named(reqItems, "no-store")
              && (|| resp.status in {200, 203, 301, 304, 404, 405, 410, 414, 501, 308}
                  || (200 <= resp.status < 600 && resp.status != 206 && !Named(resItems, "must-understand") &&
                      (Named(resItems, "public") || Named(resItems, "max-age") || Get(resp.header, "Expires") != "")))
  {
    FlagsRead(request, reqItems);
    FlagsRead(resp.header, resItems);
  }
}
