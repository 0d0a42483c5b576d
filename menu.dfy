/** The processing-operation menu of `main`: choices "1" to "4", anything else meaning word_count. */
module Menu {
  import opened Transform

  /**
   * `operations.get(choice, "word_count")`, as the menu announces it:
   * 1 counts, 2 adds line numbers, 3 reverses the lines, 4 upper-cases.
   */
  function SelectOperation(choice: string): (operation: string)
    ensures IsKnownOperation(operation)
    ensures choice == "2" ==> operation == LineNumbers
    ensures choice == "3" ==> operation == ReverseLines
    ensures choice == "4" ==> operation == Uppercase
    ensures choice != "2" && choice != "3" && choice != "4" ==> operation == WordCount
  {
    if choice == "1" then WordCount
    else if choice == "2" then LineNumbers
    else if choice == "3" then ReverseLines
    else if choice == "4" then Uppercase
    else WordCount
  }

  /**
   * The menu reaches every known operation, each from its own choice, so
   * the unknown-operation branch of `process_text` is never taken from it.
   */
  lemma MenuCoversOperations(operation: string)
    requires IsKnownOperation(operation)
    ensures exists choice :: choice in ["1", "2", "3", "4"] && SelectOperation(choice) == operation
  {
    if operation == WordCount {
      assert SelectOperation("1") == operation;
    } else if operation == LineNumbers {
      assert SelectOperation("2") == operation;
    } else if operation == ReverseLines {
      assert SelectOperation("3") == operation;
    } else {
      assert SelectOperation("4") == operation;
    }
  }

  /** Different menu choices among "1" to "4" select different operations. */
  lemma MenuChoicesDistinct(a: string, b: string)
    requires a in ["1", "2", "3", "4"] && b in ["1", "2", "3", "4"] && a != b
    ensures SelectOperation(a) != SelectOperation(b)
  {
  }
}
