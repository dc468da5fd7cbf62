/** The entry form of components/LoanForm.tsx: its six pieces of state, the
    autocomplete list filtered from the saved descriptions, and the
    validation that decides whether a submission becomes a loan. */
module LoanForm {
  import opened Types
  import opened Text
  import opened Seqs

  // ---------------------------------------------------------------------------
  // Validation.

  /** The two reasons a submission is refused. */
  datatype Problem = MissingFields | InvalidAmount

  /** The text shown under the form for each problem. */
  function Message(problem: Problem): (text: string)
    ensures text != ""
  {
    match problem
    case MissingFields => "Borrower name and amount are required."
    case InvalidAmount => "Please enter a valid, positive loan amount."
  }

  /** The outcome of the checks of `handleSubmit`. */
  datatype Checked = Accept(entry: LoanEntry) | Reject(problem: Problem)

  /** The checks of `handleSubmit` in their order; `parsed` is
      `parseFloat(amount)`, None standing for NaN. A blank name or amount is
      reported before the amount is looked at; an accepted entry carries the
      parsed amount and the trimmed name and description. */
  function Validate(name: string, amount: string, description: string, parsed: Option<real>): (r: Checked)
    ensures r == Reject(MissingFields) <==> Trim(name) == "" || Trim(amount) == ""
    ensures r == Reject(InvalidAmount) <==> Trim(name) != "" && Trim(amount) != "" && (parsed.None? || parsed.value <= 0.0)
    ensures r.Accept? ==> r.entry.amount == parsed.value && r.entry.name == Trim(name) && r.entry.description == Trim(description)
  {
    if Trim(name) == "" || Trim(amount) == "" then Reject(MissingFields)
    else if parsed.None? || parsed.value <= 0.0 then Reject(InvalidAmount)
    else Accept(LoanEntry(Trim(name), parsed.value, Trim(description)))
  }

  /** Every accepted entry has a non-blank trimmed name, a positive amount
      and a trimmed description. */
  lemma ValidEntry(name: string, amount: string, description: string, parsed: Option<real>)
    requires Validate(name, amount, description, parsed).Accept?
    ensures var entry := Validate(name, amount, description, parsed).entry;
      && entry.name != "" && IsTrimmed(entry.name)
      && entry.amount > 0.0
      && IsTrimmed(entry.description)
  {
  }

  /** Validating the fields an accepted entry already carries accepts the
      same entry again: trimming twice changes nothing. */
  lemma ValidateIdempotent(name: string, amount: string, description: string, parsed: Option<real>)
    requires Validate(name, amount, description, parsed).Accept?
    ensures var entry := Validate(name, amount, description, parsed).entry;
      Validate(entry.name, amount, entry.description, parsed) == Accept(entry)
  {
    TrimIdempotent(name);
    TrimIdempotent(description);
  }

  // ---------------------------------------------------------------------------
  // Autocomplete.

  /** `s.toLowerCase().includes(query.toLowerCase())`. */
  predicate Matches(s: string, query: string) {
    Contains(LowerCase(s), LowerCase(query))
  }

  /** `savedDescriptions.filter(...)`: the saved descriptions that contain
      the query, ignoring case, in their saved order. */
  function Suggestions(saved: seq<string>, query: string): (r: seq<string>)
    ensures IsSubsequence(r, saved)
    ensures forall s :: s in r <==> s in saved && Matches(s, query)
    ensures forall s :: multiset(r)[s] == if Matches(s, query) then multiset(saved)[s] else 0
  {
    if |saved| == 0 then []
    else
      var rest := Suggestions(saved[1..], query);
      assert multiset(saved) == multiset{saved[0]} + multiset(saved[1..]) by {
        assert saved == [saved[0]] + saved[1..];
      }
      if Matches(saved[0], query) then
        assert ([saved[0]] + rest)[1..] == rest;
        [saved[0]] + rest
      else
        assert rest == [] || rest[0] != saved[0] by {
          if rest != [] { assert rest[0] in rest; }
        }
        assert forall s :: s in saved <==> s == saved[0] || s in saved[1..] by {
          assert saved == [saved[0]] + saved[1..];
        }
        rest
  }

  /** Saved descriptions are distinct, and so are the suggestions, which
      React keys by their text. */
  lemma {:induction false} SuggestionsDistinct(saved: seq<string>, query: string)
    requires Distinct(saved)
    ensures Distinct(Suggestions(saved, query))
  {
    if |saved| > 0 {
      assert Distinct(saved[1..]) by {
        forall i, j | 0 <= i < j < |saved| - 1 ensures saved[1..][i] != saved[1..][j] {
          assert saved[i + 1] != saved[j + 1];
        }
      }
      SuggestionsDistinct(saved[1..], query);
      assert saved[0] !in saved[1..] by {
        forall i | 0 <= i < |saved| - 1 ensures saved[1..][i] != saved[0] {
          assert saved[i + 1] != saved[0];
        }
      }
    }
  }

  lemma ToLowerIdempotent(c: char)
    ensures ToLower(ToLower(c)) == ToLower(c)
  {
  }

  /** The query's case does not matter. */
  lemma {:induction false} SuggestionsIgnoreCase(saved: seq<string>, query: string)
    ensures Suggestions(saved, LowerCase(query)) == Suggestions(saved, query)
  {
    assert LowerCase(LowerCase(query)) == LowerCase(query) by {
      forall i | 0 <= i < |query| ensures LowerCase(LowerCase(query))[i] == LowerCase(query)[i] {
        ToLowerIdempotent(query[i]);
      }
    }
    if |saved| > 0 {
      SuggestionsIgnoreCase(saved[1..], query);
    }
  }

  // ---------------------------------------------------------------------------
  // The component's state.

  class LoanForm {
    var name: string
    var amount: string
    var description: string
    /** `error`, with None for the empty string. */
    var error: Option<Problem>
    var suggestions: seq<string>
    var showSuggestions: bool

    constructor()
      ensures name == "" && amount == "" && description == "" && error.None?
      ensures suggestions == [] && !showSuggestions
    {
      name, amount, description, error := "", "", "", None;
      suggestions, showSuggestions := [], false;
    }

    /** The dropdown is on screen (line 124). */
    predicate DropdownVisible()
      reads this
    {
      showSuggestions && |suggestions| > 0
    }

    /** The name input's `onChange`. */
    method SetName(value: string)
      modifies this
      ensures name == value
      ensures amount == old(amount) && description == old(description) && error == old(error)
      ensures suggestions == old(suggestions) && showSuggestions == old(showSuggestions)
    {
      name := value;
    }

    /** The amount input's `onChange`. */
    method SetAmount(value: string)
      modifies this
      ensures amount == value
      ensures name == old(name) && description == old(description) && error == old(error)
      ensures suggestions == old(suggestions) && showSuggestions == old(showSuggestions)
    {
      amount := value;
    }

    /** `handleDescriptionChange`: typing refilters the list and opens it;
        clearing the field empties and closes it. */
    method DescriptionChange(value: string, saved: seq<string>)
      modifies this
      ensures description == value
      ensures suggestions == (if value == "" then [] else Suggestions(saved, value))
      ensures showSuggestions == (value != "")
      ensures DropdownVisible() <==> value != "" && exists s :: s in saved && Matches(s, value)
      ensures name == old(name) && amount == old(amount) && error == old(error)
    {
      description := value;
      if |value| > 0 {
        suggestions := Suggestions(saved, value);
        showSuggestions := true;
        if s :| s in saved && Matches(s, value) {
          assert s in suggestions;
        }
        if |suggestions| > 0 {
          assert suggestions[0] in suggestions;
        }
      } else {
        suggestions := [];
        showSuggestions := false;
      }
    }

    /** The description input's `onFocus`: reopens the list for a non-empty
        description when anything is saved, and otherwise changes nothing. */
    method Focus(saved: seq<string>)
      modifies this
      ensures description != "" && saved != [] ==> suggestions == Suggestions(saved, description) && showSuggestions
      ensures description == "" || saved == [] ==> suggestions == old(suggestions) && showSuggestions == old(showSuggestions)
      ensures name == old(name) && amount == old(amount) && description == old(description) && error == old(error)
    {
      if |description| > 0 && |saved| > 0 {
        suggestions := Suggestions(saved, description);
        showSuggestions := true;
      }
    }

    /** `handleSuggestionClick`: the suggestion becomes the description and
        the list closes, keeping its entries. */
    method SuggestionClick(suggestion: string)
      modifies this
      ensures description == suggestion && !showSuggestions && !DropdownVisible()
      ensures name == old(name) && amount == old(amount) && error == old(error) && suggestions == old(suggestions)
    {
      description := suggestion;
      showSuggestions := false;
    }

    /** The document `mousedown` listener: a press outside the description
        field closes the list; the DOM test becomes `inside`. */
    method MouseDown(inside: bool)
      modifies this
      ensures showSuggestions == (old(showSuggestions) && inside)
      ensures name == old(name) && amount == old(amount) && description == old(description)
      ensures error == old(error) && suggestions == old(suggestions)
    {
      if !inside {
        showSuggestions := false;
      }
    }

    /** `handleSubmit`: `parseFloat` is a parameter. A rejected submission
        shows its message and keeps the fields; an accepted one hands the
        entry to the ledger and clears the fields and the message. */
    method Submit(parseFloat: string -> Option<real>) returns (added: Option<LoanEntry>)
      modifies this
      ensures Validate(old(name), old(amount), old(description), parseFloat(old(amount))).Reject? ==>
        && added.None?
        && error == Some(Validate(old(name), old(amount), old(description), parseFloat(old(amount))).problem)
        && name == old(name) && amount == old(amount) && description == old(description)
      ensures Validate(old(name), old(amount), old(description), parseFloat(old(amount))).Accept? ==>
        && added == Some(Validate(old(name), old(amount), old(description), parseFloat(old(amount))).entry)
        && name == "" && amount == "" && description == "" && error.None?
      ensures suggestions == old(suggestions) && showSuggestions == old(showSuggestions)
    {
      var checked := Validate(name, amount, description, parseFloat(amount));
      added := Settle(checked);
    }

    /** The state changes of `handleSubmit` once its checks have run. */
    method Settle(checked: Checked) returns (added: Option<LoanEntry>)
      modifies this
      ensures checked.Reject? ==>
        && added.None? && error == Some(checked.problem)
        && name == old(name) && amount == old(amount) && description == old(description)
      ensures checked.Accept? ==>
        && added == Some(checked.entry)
        && name == "" && amount == "" && description == "" && error.None?
      ensures suggestions == old(suggestions) && showSuggestions == old(showSuggestions)
    {
      if checked.Reject? {
        error := Some(checked.problem);
        added := None;
      } else {
        added := Some(checked.entry);
        name, amount, description, error := "", "", "", None;
      }
    }
  }
}
