/** Creating a shopping list from free text (`guardar_lista_compras`):
    the text is tokenised, each token is checked against the lower-cased
    product names of the catalog, and the list keeps only the tokens that
    some product name contains. Writing the list to its file is not part
    of this model; the outcome carries what would be written. */
module ShoppingList {
  import opened Text
  import opened Seqs
  import opened Catalog

  /** The Portuguese function words the tokeniser drops. */
  const Stopwords: set<string> :=
    {"e", "de", "do", "da", "dos", "das", "com", "para", "o", "a", "os", "as", "um", "uma"}

  /** A token the tokeniser can produce. */
  predicate IsToken(t: string) {
    IsWord(t) && IsLower(t) && t !in Stopwords
  }

  /** The comprehension over the words: each word is lower-cased and kept
      unless its lower-case form is a stopword. */
  function KeepTokens(ws: seq<string>): (ts: seq<string>)
    ensures (forall i :: 0 <= i < |ws| ==> IsWord(ws[i])) ==> forall i :: 0 <= i < |ts| ==> IsToken(ts[i])
  {
    if ws == [] then []
    else
      var t := Lower(ws[0]);
      (if t in Stopwords then [] else [t]) + KeepTokens(ws[1..])
  }

  /** The list of tokens of a free-text request. */
  function Tokenise(text: string): (ts: seq<string>)
    ensures forall i :: 0 <= i < |ts| ==> IsToken(ts[i])
  {
    KeepTokens(Words(text))
  }

  lemma {:induction false} KeepTokensConcat(a: seq<string>, b: seq<string>)
    ensures KeepTokens(a + b) == KeepTokens(a) + KeepTokens(b)
  {
    if a != [] {
      assert (a + b)[1..] == a[1..] + b;
      KeepTokensConcat(a[1..], b);
    } else {
      assert a + b == b;
    }
  }

  /** Tokens keep their left-to-right order: a request split at a
      separator tokenises to the tokens of the left part followed by those
      of the right part. */
  lemma TokeniseAtSeparator(a: string, c: char, b: string)
    requires IsSeparator(c)
    ensures Tokenise(a + [c] + b) == Tokenise(a) + Tokenise(b)
  {
    WordsAtSeparator(a, c, b);
    KeepTokensConcat(Words(a), Words(b));
  }

  lemma {:induction false} KeepTokensOfTokens(ts: seq<string>)
    requires forall i :: 0 <= i < |ts| ==> IsToken(ts[i])
    ensures KeepTokens(ts) == ts
  {
    if ts != [] {
      LowerOfLower(ts[0]);
      KeepTokensOfTokens(ts[1..]);
    }
  }

  /** Round trip: tokens joined by spaces tokenise back to themselves, so
      the tokeniser loses no token and invents none. */
  lemma TokeniseJoin(ts: seq<string>)
    requires forall i :: 0 <= i < |ts| ==> IsToken(ts[i])
    ensures Tokenise(Join(ts)) == ts
  {
    WordsOfJoin(ts);
    KeepTokensOfTokens(ts);
  }

  /** The tokens are exactly the lower-cased words that are not
      stopwords. */
  lemma {:induction false} KeepTokensMembers(ws: seq<string>, t: string)
    ensures t in KeepTokens(ws) <==> t !in Stopwords && exists w :: w in ws && Lower(w) == t
  {
    if ws != [] {
      KeepTokensMembers(ws[1..], t);
      assert forall w :: w in ws <==> w == ws[0] || w in ws[1..];
    }
  }

  /** An empty or whitespace-only request has no tokens. */
  lemma TokeniseBlank(text: string)
    requires IsBlank(text)
    ensures Tokenise(text) == []
  {
    WordsOfBlank(text);
  }

  /** `nomes_produtos`: the lower-cased product name of every catalog
      entry, in catalog order. */
  function LowerNames(catalog: seq<Entry>): (r: seq<string>)
    ensures |r| == |catalog|
    ensures forall i :: 0 <= i < |r| ==> r[i] == Lower(catalog[i].name)
  {
    seq(|catalog|, i requires 0 <= i < |catalog| => Lower(catalog[i].name))
  }

  /** `any(item in nome for nome in nomes_produtos)`. */
  predicate IsKnown(names: seq<string>, t: string) {
    exists i :: 0 <= i < |names| && IsSubstring(t, names[i])
  }

  /** Checking a token against `nomes_produtos` is checking it against
      every catalog entry's lower-cased name. */
  lemma KnownInCatalog(catalog: seq<Entry>, t: string)
    ensures IsKnown(LowerNames(catalog), t) <==> exists e :: e in catalog && IsSubstring(t, Lower(e.name))
  {
    var names := LowerNames(catalog);
    if IsKnown(names, t) {
      var i :| 0 <= i < |names| && IsSubstring(t, names[i]);
      assert catalog[i] in catalog;
    }
    if exists e :: e in catalog && IsSubstring(t, Lower(e.name)) {
      var e :| e in catalog && IsSubstring(t, Lower(e.name));
      var i :| 0 <= i < |catalog| && catalog[i] == e;
      assert IsSubstring(t, names[i]);
    }
  }

  function KnownIn(names: seq<string>): string -> bool {
    t => IsKnown(names, t)
  }

  function UnknownIn(names: seq<string>): string -> bool {
    t => !IsKnown(names, t)
  }

  /** `validos`: the tokens some name contains, in token order. */
  function KnownTokens(tokens: seq<string>, names: seq<string>): seq<string> {
    Filter(KnownIn(names), tokens)
  }

  /** `invalidos`: the tokens no name contains, in token order. */
  function UnknownTokens(tokens: seq<string>, names: seq<string>): seq<string> {
    Filter(UnknownIn(names), tokens)
  }

  /** The validation loop: each token is appended to the valid list or to
      the invalid one. */
  method Validate(tokens: seq<string>, names: seq<string>) returns (valid: seq<string>, invalid: seq<string>)
    ensures valid == KnownTokens(tokens, names)
    ensures invalid == UnknownTokens(tokens, names)
  {
    valid, invalid := [], [];
    for i := 0 to |tokens|
      invariant valid == KnownTokens(tokens[..i], names)
      invariant invalid == UnknownTokens(tokens[..i], names)
    {
      var item := tokens[i];
      assert tokens[..i + 1] == tokens[..i] + [item];
      FilterSnoc(KnownIn(names), tokens[..i], item);
      FilterSnoc(UnknownIn(names), tokens[..i], item);
      if IsKnown(names, item) {
        valid := valid + [item];
      } else {
        invalid := invalid + [item];
      }
    }
    assert tokens[..|tokens|] == tokens;
  }

  /** The partition is total and disjoint: every token lands in exactly
      one of the two lists. */
  lemma PartitionTotal(tokens: seq<string>, names: seq<string>)
    ensures |KnownTokens(tokens, names)| + |UnknownTokens(tokens, names)| == |tokens|
    ensures multiset(KnownTokens(tokens, names)) + multiset(UnknownTokens(tokens, names)) == multiset(tokens)
  {
    FilterComplement(KnownIn(names), UnknownIn(names), tokens);
  }

  /** A token is valid exactly when some product name contains it, and
      invalid exactly when none does. */
  lemma PartitionMembers(tokens: seq<string>, names: seq<string>, t: string)
    ensures t in KnownTokens(tokens, names) <==> t in tokens && IsKnown(names, t)
    ensures t in UnknownTokens(tokens, names) <==> t in tokens && !IsKnown(names, t)
  {
    FilterMembers(KnownIn(names), tokens, t);
    FilterMembers(UnknownIn(names), tokens, t);
  }

  /** Both lists keep the relative order of the tokens. */
  lemma PartitionOrder(a: seq<string>, b: seq<string>, names: seq<string>)
    ensures KnownTokens(a + b, names) == KnownTokens(a, names) + KnownTokens(b, names)
    ensures UnknownTokens(a + b, names) == UnknownTokens(a, names) + UnknownTokens(b, names)
  {
    FilterConcat(KnownIn(names), a, b);
    FilterConcat(UnknownIn(names), a, b);
  }

  /** What `guardar_lista_compras` returns: the saved list with the
      ignored tokens, or one of its two error replies. */
  datatype SaveOutcome =
    | Saved(valid: seq<string>, invalid: seq<string>)
    | EmptyRequest      // the request names no product at all
    | NoKnownProduct    // no token is contained in any product name

  /** `guardar_lista_compras(itens)` against the catalog. */
  method SaveList(text: string, catalog: seq<Entry>) returns (r: SaveOutcome)
    ensures r == EmptyRequest <==> IsBlank(text)
    ensures r == NoKnownProduct <==>
      !IsBlank(text) && KnownTokens(Tokenise(text), LowerNames(catalog)) == []
    ensures r.Saved? ==>
      && r.valid == KnownTokens(Tokenise(text), LowerNames(catalog))
      && r.invalid == UnknownTokens(Tokenise(text), LowerNames(catalog))
      && r.valid != []
      && forall i :: 0 <= i < |r.valid| ==> IsToken(r.valid[i])
  {
    if IsBlank(text) {
      return EmptyRequest;
    }
    var tokens := Tokenise(text);
    var names := LowerNames(catalog);
    var valid, invalid := Validate(tokens, names);
    if valid == [] {
      return NoKnownProduct;
    }
    forall i | 0 <= i < |valid|
      ensures IsToken(valid[i])
    {
      FilterMembers(KnownIn(names), tokens, valid[i]);
    }
    return Saved(valid, invalid);
  }
}
