/** The plugin's result list on two inputs. */
module ConvertCaseExamples {
  import opened SnakeCaseExamples
  import opened PascalCaseExamples
  import opened ConvertCase

  /* The result list for an empty query and for "fooBar". */

  lemma QueryExample()
    ensures Query("") == []
    ensures Query("fooBar") == [
      ConvertResult("fooBar", "foo_bar", "snake_case", "fooBar"),
      ConvertResult("fooBar", "Foo_bar", "Upper_snake_case", "fooBar"),
      ConvertResult("fooBar", "FooBar", "PascalCase", "fooBar")]
  {
    FooBarSnake();
    FooBarUpperSnake();
    FooBarPascal();
  }
}
